/**
 `grade_notebook`: execute the submission, collect the results its checks
 appended, add the extra tests and the pre-graded results, and reduce
 everything to the score mapping.

 What Python does with the combined source of the first pass (parse it,
 wrap the `check` calls, run it again) is not modelled; its outcome on a
 given source is the oracle `second`: whether that source parses, whether
 the run raised, and the results the checks collected.
 */
module Grading {
  import opened Wrappers
  import opened Sorting
  import opened Selection
  import opened Sandbox
  import opened NotebookExecution
  import opened ScriptExecution
  import opened Results
  import opened Merging
  import opened ScoreMapping

  /** A notebook with the outcome of executing each cell, or a script with the outcome of its `exec`. */
  datatype Submission = Notebook(runs: seq<CellRun>) | Script(text: string, execOk: bool)

  /** `ast.parse` of the combined source succeeds; the final `exec` does not raise; what it collected. */
  datatype SecondPass = SecondPass(parses: bool, runsOk: bool, collected: seq<TestResult>)

  /** Why `grade_notebook` raised instead of returning a score mapping. */
  datatype GradeError = ExecutionRaised | SourceRejected | DeletionOutOfRange(index: nat)

  /**
   The options a script run sees: `grade_notebook` does not pass `test_dir`
   on to `execute_script`, so a script always uses the default directory.
   */
  function ScriptConfig(cfg: Config): Config
  {
    cfg.(testDir := None)
  }

  /** The first execution pass: the combined source it leaves for the second pass, or the failure that propagates. */
  function FirstPass(sub: Submission, cfg: Config, transform: string -> string): Run
  {
    match sub
    case Notebook(runs) =>
      if !cfg.ignoreErrors && FirstFailure(runs).Some? then Raised(FirstFailure(runs).value)
      else Completed(CwdPrefix(cfg.cwd) + Combined(runs, cfg, transform))
    case Script(text, execOk) => ScriptRun(text, ScriptConfig(cfg), execOk)
  }

  /** The first execution pass raises. */
  predicate FirstPassRaises(sub: Submission, cfg: Config)
  {
    match sub
    case Notebook(runs) => !cfg.ignoreErrors && FirstFailure(runs).Some?
    case Script(_, execOk) => !execOk && !cfg.ignoreErrors
  }

  /** The collected results followed by a result for every uncovered extra test, in sorted order. */
  function WithExtraTests(collected: seq<TestResult>, testsGlob: seq<string>, run: string -> TestResult): seq<TestResult>
  {
    if |testsGlob| == 0 then collected
    else collected + RunAll(run, Select(Sort(testsGlob), t => !Covered(Flatten(collected), t)))
  }

  /** The result list that is scored, or the deletion that raised. */
  function FinalResults(collected: seq<TestResult>, testsGlob: seq<string>, run: string -> TestResult, pregraded: seq<TestResult>)
    : Result<seq<TestResult>, nat>
  {
    var results := WithExtraTests(collected, testsGlob, run);
    if |pregraded| == 0 then Ok(results) else WithPregraded(results, pregraded)
  }

  /** What `grade_notebook` returns, or why it raises; `second` is the outcome of the second pass on a source. */
  function Grade(sub: Submission, cfg: Config, transform: string -> string, second: string -> SecondPass,
                 testsGlob: seq<string>, run: string -> TestResult, pregraded: seq<TestResult>)
    : Result<map<string, ScoreValue>, GradeError>
  {
    match FirstPass(sub, cfg, transform)
    case Raised(_) => Err(ExecutionRaised)
    case Completed(source) =>
      var pass := second(source);
      if !pass.parses then Err(SourceRejected)
      else if !pass.runsOk && !cfg.ignoreErrors then Err(ExecutionRaised)
      else
        match FinalResults(pass.collected, testsGlob, run, pregraded)
        case Err(i) => Err(DeletionOutOfRange(i))
        case Ok(results) => Ok(Scores(results))
  }

  method GradeNotebook(sub: Submission, cfg: Config, transform: string -> string, second: string -> SecondPass,
                       testsGlob: seq<string>, run: string -> TestResult, pregraded: seq<TestResult>)
    returns (r: Result<map<string, ScoreValue>, GradeError>)
    ensures r == Grade(sub, cfg, transform, second, testsGlob, run, pregraded)
  {
    var first: Run;
    match sub {
      case Notebook(runs) =>
        first := PreExecute(runs, cfg, transform);
      case Script(text, execOk) =>
        first := ExecuteScript(text, ScriptConfig(cfg), execOk);
    }
    if first.Raised? {
      return Err(ExecutionRaised);
    }
    var pass := second(first.source);
    if !pass.parses {
      return Err(SourceRejected);
    }
    if !pass.runsOk && !cfg.ignoreErrors {
      return Err(ExecutionRaised);
    }
    var testResults := pass.collected;
    if |testsGlob| > 0 {
      var extra := SelectExtraTests(testsGlob, Flatten(testResults));
      testResults := testResults + RunAll(run, extra);
    }
    if |pregraded| > 0 {
      var merged := ApplyPregraded(testResults, pregraded);
      if merged.Err? {
        return Err(DeletionOutOfRange(merged.error));
      }
      testResults := merged.value;
    }
    var scores := ComputeScores(testResults);
    return Ok(scores);
  }

  // ---------------------------------------------------------------------
  // Properties of grading

  /** Whether the first pass raises depends only on the execution outcomes, not on any text or on `transform`. */
  lemma FirstPassRaisesSpec(sub: Submission, cfg: Config, transform: string -> string)
    ensures FirstPass(sub, cfg, transform).Raised? <==> FirstPassRaises(sub, cfg)
  {
  }

  /**
   With errors ignored, the first pass always leaves a source, and only an
   unparsable source or an out-of-range deletion stops grading.
   */
  lemma IgnoredErrorsOnlyStopAtParseOrDeletion(sub: Submission, cfg: Config, transform: string -> string,
                                               second: string -> SecondPass, testsGlob: seq<string>,
                                               run: string -> TestResult, pregraded: seq<TestResult>)
    requires cfg.ignoreErrors
    ensures FirstPass(sub, cfg, transform).Completed?
    ensures var g := Grade(sub, cfg, transform, second, testsGlob, run, pregraded);
            && (g == Err(SourceRejected) <==> !second(FirstPass(sub, cfg, transform).source).parses)
            && (g.Err? ==> g == Err(SourceRejected) || g.error.DeletionOutOfRange?)
  {
  }

  /**
   A graded submission's mapping: `"total"` and `"possible"` are the sums
   over the scored list, which starts with the results the second pass over
   the first pass's source collected and, with pre-graded results, ends
   with them.
   */
  lemma GradedTotals(sub: Submission, cfg: Config, transform: string -> string, second: string -> SecondPass,
                     testsGlob: seq<string>, run: string -> TestResult, pregraded: seq<TestResult>)
    requires Grade(sub, cfg, transform, second, testsGlob, run, pregraded).Ok?
    ensures FirstPass(sub, cfg, transform).Completed?
    ensures var pass := second(FirstPass(sub, cfg, transform).source);
            var results := FinalResults(pass.collected, testsGlob, run, pregraded).value;
            var scores := Grade(sub, cfg, transform, second, testsGlob, run, pregraded).value;
            && FinalResults(pass.collected, testsGlob, run, pregraded).Ok?
            && scores["total"] == Points(Earned(results))
            && scores["possible"] == Points(Possible(results))
            && |results| >= |pregraded| && results[|results| - |pregraded|..] == pregraded
  {
    var pass := second(FirstPass(sub, cfg, transform).source);
    var results := WithExtraTests(pass.collected, testsGlob, run);
    if |pregraded| > 0 {
      PregradedSuffix(results, pregraded);
    } else {
      var final := FinalResults(pass.collected, testsGlob, run, pregraded).value;
      assert final[|final|..] == [];
    }
  }

  /** Without pre-graded results, the scored list begins with the collected results and adds only uncovered extra tests. */
  lemma ExtraTestsAdded(collected: seq<TestResult>, testsGlob: seq<string>, run: string -> TestResult)
    ensures var results := FinalResults(collected, testsGlob, run, []).value;
            && FinalResults(collected, testsGlob, run, []).Ok?
            && |results| >= |collected| && results[..|collected|] == collected
            && forall k :: |collected| <= k < |results| ==>
                 exists t :: t in testsGlob && !Covered(Flatten(collected), t) && results[k] == run(t)
  {
    var results := FinalResults(collected, testsGlob, run, []).value;
    if |testsGlob| > 0 {
      var extra := Select(Sort(testsGlob), t => !Covered(Flatten(collected), t));
      ExtraTestsSpec(testsGlob, Flatten(collected));
      assert results == collected + RunAll(run, extra);
      forall k | |collected| <= k < |results|
        ensures exists t :: t in testsGlob && !Covered(Flatten(collected), t) && results[k] == run(t)
      {
        var t := extra[k - |collected|];
        assert t in extra;
        assert results[k] == run(t);
      }
    }
  }

  // ---------------------------------------------------------------------
  // Grading with the corrected pre-graded step

  /** `Grade` with the pre-graded step as intended: superseded results are dropped, and no deletion can raise. */
  function GradeIntended(sub: Submission, cfg: Config, transform: string -> string, second: string -> SecondPass,
                         testsGlob: seq<string>, run: string -> TestResult, pregraded: seq<TestResult>)
    : Result<map<string, ScoreValue>, GradeError>
  {
    match FirstPass(sub, cfg, transform)
    case Raised(_) => Err(ExecutionRaised)
    case Completed(source) =>
      var pass := second(source);
      if !pass.parses then Err(SourceRejected)
      else if !pass.runsOk && !cfg.ignoreErrors then Err(ExecutionRaised)
      else
        var results := WithExtraTests(pass.collected, testsGlob, run);
        Ok(Scores(if |pregraded| == 0 then results else WithPregradedIntended(results, pregraded)))
  }

  /** The corrected grading fails only where execution or parsing does. */
  lemma IntendedNeverOutOfRange(sub: Submission, cfg: Config, transform: string -> string, second: string -> SecondPass,
                                testsGlob: seq<string>, run: string -> TestResult, pregraded: seq<TestResult>)
    ensures GradeIntended(sub, cfg, transform, second, testsGlob, run, pregraded).Err?
            <==> FirstPassRaises(sub, cfg)
                 || (var pass := second(FirstPass(sub, cfg, transform).source);
                     !pass.parses || (!pass.runsOk && !cfg.ignoreErrors))
  {
    FirstPassRaisesSpec(sub, cfg, transform);
  }

  /** With one path per scored result and one pre-graded result, the code as written grades as intended. */
  lemma GradeAgreesWhenSingle(sub: Submission, cfg: Config, transform: string -> string, second: string -> SecondPass,
                              testsGlob: seq<string>, run: string -> TestResult, pg: TestResult)
    requires FirstPass(sub, cfg, transform).Completed? ==>
               var results := WithExtraTests(second(FirstPass(sub, cfg, transform).source).collected, testsGlob, run);
               forall i :: 0 <= i < |results| ==> |results[i].paths| == 1
    ensures Grade(sub, cfg, transform, second, testsGlob, run, [pg])
            == GradeIntended(sub, cfg, transform, second, testsGlob, run, [pg])
  {
    if FirstPass(sub, cfg, transform).Completed? {
      AsWrittenMatchesIntended(WithExtraTests(second(FirstPass(sub, cfg, transform).source).collected, testsGlob, run), pg);
    }
  }
}
