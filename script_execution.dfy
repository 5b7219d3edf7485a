/**
 Script mode: the script is split into lines, each line with an
 `otter.Notebook(...)` call has every call rewritten to name the test
 directory (the list of lines is overwritten in place), and the lines are
 joined again behind the working-directory and seed prefixes. Whether the
 first `exec` of the rewritten script raises is given as `execOk`.
 */
module ScriptExecution {
  import opened Wrappers
  import opened Text
  import opened NotebookCall
  import opened Sandbox

  /** The source a script run leaves behind, or `Raised(0)` when the script raised and errors are not ignored. */
  function ScriptRun(script: string, cfg: Config, execOk: bool): Run
  {
    if execOk then Completed(CwdPrefix(cfg.cwd) + SeedPrefix(cfg.seed) + Join(NormalizedLines(Split(script, '\n'), cfg.testDir), '\n'))
    else if cfg.ignoreErrors then Completed(CwdPrefix(cfg.cwd) + SeedPrefix(cfg.seed))
    else Raised(0)
  }

  /** Overwrites every line holding a call with its rewritten form; other lines stay as they are. */
  method RewriteLines(lines: array<string>, testDir: Option<string>)
    modifies lines
    ensures lines[..] == NormalizedLines(old(lines[..]), testDir)
  {
    for i := 0 to lines.Length
      invariant forall j :: 0 <= j < i ==> lines[j] == NormalizedLine(old(lines[j]), testDir)
      invariant forall j :: i <= j < lines.Length ==> lines[j] == old(lines[j])
    {
      var line := lines[i];
      if HasNotebookCall(line) {
        if testDir.Some? && testDir.value != "" {
          line := ReplaceAll(line, Replacement(testDir.value));
        } else {
          line := ReplaceAll(line, Replacement(DefaultTestDir));
        }
      }
      lines[i] := line;
    }
  }

  /** The textual effect of `execute_script`: the assembled `source`, or the failure that propagates. */
  method ExecuteScript(script: string, cfg: Config, execOk: bool) returns (run: Run)
    ensures run == ScriptRun(script, cfg, execOk)
  {
    var source := CwdPrefix(cfg.cwd);
    if cfg.seed.Some? {
      source := source + SeedPrefix(cfg.seed);
    }
    var parts := Split(script, '\n');
    var lines := new string[|parts|](j requires 0 <= j < |parts| => parts[j]);
    assert lines[..] == parts;
    RewriteLines(lines, cfg.testDir);
    if execOk {
      source := source + Join(lines[..], '\n');
    } else if !cfg.ignoreErrors {
      return Raised(0);
    }
    return Completed(source);
  }

  // ---------------------------------------------------------------------
  // Properties of script mode

  /** A script that ran is its prefixes followed by its rewritten lines, and nothing else. */
  lemma ScriptSource(script: string, cfg: Config)
    requires '\n' !in ResolveTestDir(cfg.testDir)
    ensures ScriptRun(script, cfg, true).Completed?
    ensures var src := ScriptRun(script, cfg, true).source;
            var pre := CwdPrefix(cfg.cwd) + SeedPrefix(cfg.seed);
            |pre| <= |src| && src[..|pre|] == pre
            && Split(src[|pre|..], '\n') == NormalizedLines(Split(script, '\n'), cfg.testDir)
  {
    var pre := CwdPrefix(cfg.cwd) + SeedPrefix(cfg.seed);
    var out := NormalizedLines(Split(script, '\n'), cfg.testDir);
    var src := pre + Join(out, '\n');
    assert src[..|pre|] == pre;
    assert src[|pre|..] == Join(out, '\n');
    RewrittenLinesNoNewline(Split(script, '\n'), cfg.testDir);
    SplitJoin(out, '\n');
  }

  /** Rewriting never adds a line break, so rewritten lines are still lines. */
  lemma RewrittenLinesNoNewline(lines: seq<string>, testDir: Option<string>)
    requires '\n' !in ResolveTestDir(testDir)
    requires forall j :: 0 <= j < |lines| ==> '\n' !in lines[j]
    ensures forall j :: 0 <= j < |lines| ==> '\n' !in NormalizedLines(lines, testDir)[j]
  {
    forall j | 0 <= j < |lines| ensures '\n' !in NormalizedLines(lines, testDir)[j] {
      if HasNotebookCall(lines[j]) {
        ReplacementNoNewline(ResolveTestDir(testDir));
        ReplaceAllNoNewline(lines[j], Replacement(ResolveTestDir(testDir)));
      }
    }
  }

  /** A script with no call in it is executed exactly as written. */
  lemma NoCallScriptUnchanged(script: string, testDir: Option<string>)
    requires forall j :: 0 <= j < |Split(script, '\n')| ==> !HasNotebookCall(Split(script, '\n')[j])
    ensures Join(NormalizedLines(Split(script, '\n'), testDir), '\n') == script
  {
    var parts := Split(script, '\n');
    assert NormalizedLines(parts, testDir) == parts;
    JoinSplit(script, '\n');
  }

  /** Rewriting a rewritten script again changes nothing. */
  lemma ScriptRewriteIdempotent(script: string, testDir: Option<string>)
    requires PlainDir(ResolveTestDir(testDir))
    ensures var once := Join(NormalizedLines(Split(script, '\n'), testDir), '\n');
            Join(NormalizedLines(Split(once, '\n'), testDir), '\n') == once
  {
    var parts := Split(script, '\n');
    var out := NormalizedLines(parts, testDir);
    RewrittenLinesNoNewline(parts, testDir);
    SplitJoin(out, '\n');
    forall j | 0 <= j < |out| ensures NormalizedLine(out[j], testDir) == out[j] {
      NormalizedLineIsRewrite(out[j], testDir);
      NormalizedLineCanonical(parts[j], testDir);
    }
    assert NormalizedLines(out, testDir) == out;
  }

  /** Every line of the executed script is its original line with all calls rewritten. */
  lemma ScriptLinesRewritten(script: string, testDir: Option<string>)
    ensures var out := NormalizedLines(Split(script, '\n'), testDir);
            forall j :: 0 <= j < |out| ==> out[j] == RewriteCalls(Split(script, '\n')[j], testDir)
  {
    var parts := Split(script, '\n');
    forall j | 0 <= j < |parts| ensures NormalizedLine(parts[j], testDir) == RewriteCalls(parts[j], testDir) {
      NormalizedLineIsRewrite(parts[j], testDir);
    }
  }
}
