/**
 Document mode (otter/execute.py:240-311): every code cell is normalised
 line by line, prefixed with the seed statements, executed, and, when it
 ran, appended to the combined source that is later rewritten and run again.

 Executing a cell is not modelled: each cell comes with the outcome its
 execution had (`CellRun.succeeds`). The IPython input transformation is
 the opaque function `transform`.
 */
module NotebookExecution {
  import opened Wrappers
  import opened Text
  import opened Selection
  import opened NotebookCall
  import opened Sandbox

  /** A cell source is one string or a list of line strings. */
  datatype CellSource = SourceString(text: string) | SourceLines(lines: seq<string>)

  datatype Cell = Cell(cellType: string, source: CellSource)

  /** A cell of the document together with whether executing its text succeeded. */
  datatype CellRun = CellRun(cell: Cell, succeeds: bool)

  predicate IsCode(cell: Cell)
  {
    cell.cellType == "code"
  }

  // ---------------------------------------------------------------------
  // Line filter and rewrite (otter/execute.py:278-297)

  /** An IPython magic command. */
  predicate IsMagic(line: string)
  {
    StartsWith(line, "%")
  }

  predicate UsesInteract(line: string)
  {
    Contains(line, "interact(")
  }

  /** A line survives unless it is a magic, or uses `interact(` without an `otter.Notebook(...)` call. */
  predicate Kept(line: string)
  {
    !IsMagic(line) && (!UsesInteract(line) || HasNotebookCall(line))
  }

  /** The lines of a cell that survive the filter, rewritten, in their original order. */
  function KeptLines(lines: seq<string>, testDir: Option<string>): seq<string>
  {
    NormalizedLines(Select(lines, Kept), testDir)
  }

  /** String sources end every kept line with one line break; line lists are joined as they are. */
  function LinesText(lines: seq<string>, isString: bool): string
  {
    if isString then Terminated(lines, '\n') else ConcatAll(lines)
  }

  function SourceLineList(src: CellSource): seq<string>
  {
    match src
    case SourceString(text) => Split(text, '\n')
    case SourceLines(lines) => lines
  }

  /** The normalised text of one cell source, before the IPython transformation. */
  function CellCode(src: CellSource, testDir: Option<string>): string
  {
    LinesText(KeptLines(SourceLineList(src), testDir), src.SourceString?)
  }

  /** The text a code cell contributes: the seed statements, then its transformed code. */
  function CellText(cell: Cell, cfg: Config, transform: string -> string): string
  {
    SeedPrefix(cfg.seed) + transform(CellCode(cell.source, cfg.testDir))
  }

  // ---------------------------------------------------------------------
  // Accumulation (otter/execute.py:246-311)

  /** A code cell whose execution succeeded. */
  predicate Succeeded(run: CellRun)
  {
    IsCode(run.cell) && run.succeeds
  }

  /** A code cell whose execution raised. */
  predicate Fails(run: CellRun)
  {
    IsCode(run.cell) && !run.succeeds
  }

  function CellTexts(cells: seq<CellRun>, cfg: Config, transform: string -> string): (r: seq<string>)
    ensures |r| == |cells|
  {
    if |cells| == 0 then [] else [CellText(cells[0].cell, cfg, transform)] + CellTexts(cells[1..], cfg, transform)
  }

  /** The texts of exactly the code cells that ran, in document order, concatenated. */
  function Combined(runs: seq<CellRun>, cfg: Config, transform: string -> string): string
  {
    ConcatAll(CellTexts(Select(runs, Succeeded), cfg, transform))
  }

  /** The first code cell whose execution raised, if any. */
  function FirstFailure(runs: seq<CellRun>): Option<nat>
  {
    if |runs| == 0 then None
    else if Fails(runs[0]) then Some(0)
    else match FirstFailure(runs[1..])
      case None => None
      case Some(k) => Some(k + 1)
  }

  // ---------------------------------------------------------------------
  // The imperative loops

  /** `code_lines` built line by line and joined (otter/execute.py:271-297). */
  method NormalizeCell(src: CellSource, testDir: Option<string>) returns (code: string)
    ensures code == CellCode(src, testDir)
  {
    var lines: seq<string>;
    var isString := false;
    if src.SourceString? {
      isString := true;
      lines := Split(src.text, '\n');
    } else {
      lines := src.lines;
    }
    var codeLines: seq<string> := [];
    var i := 0;
    while i < |lines|
      invariant 0 <= i <= |lines|
      invariant ConcatAll(codeLines) == LinesText(KeptLines(lines[..i], testDir), isString)
    {
      ghost var before := codeLines;
      var added := ProcessLine(lines[i], testDir, isString);
      codeLines := codeLines + added;
      assert added == [] ==> codeLines == before;
      LineStep(before, codeLines, lines, i, testDir, isString);
      i := i + 1;
    }
    assert lines[..|lines|] == lines;
    code := ConcatAll(codeLines);
  }

  /**
   One line of the loop: a magic line and an `interact(` line contribute
   nothing, a line with a notebook call contributes its rewrite, any other
   line itself; a string source adds a line break after each.
   */
  method ProcessLine(line: string, testDir: Option<string>, isString: bool) returns (added: seq<string>)
    ensures added == LineCode(line, testDir, isString)
  {
    added := [];
    var text := line;
    if !StartsWith(line, "%") {
      if !Contains(line, "interact(") && !HasNotebookCall(line) {
        added := added + [line];
        if isString {
          added := added + ["\n"];
        }
      } else if HasNotebookCall(line) {
        if testDir.Some? && testDir.value != "" {
          text := ReplaceAll(line, Replacement(testDir.value));
        } else {
          text := ReplaceAll(line, Replacement(DefaultTestDir));
        }
        added := added + [text];
        if isString {
          added := added + ["\n"];
        }
      }
    }
    LineCodeCases(line, testDir, isString);
  }

  /** `cell_source` for a code cell: the seed statements, then the transformed normalised code (otter/execute.py:298-301). */
  method BuildCellSource(cell: Cell, cfg: Config, transform: string -> string) returns (cellSource: string)
    ensures cellSource == CellText(cell, cfg, transform)
  {
    var code := NormalizeCell(cell.source, cfg.testDir);
    if cfg.seed.Some? {
      var n := IntToString(cfg.seed.value);
      cellSource := "np.random.seed(" + n + ")\nrandom.seed(" + n + ")\n" + transform(code);
    } else {
      cellSource := transform(code);
    }
  }

  /**
   The pre-execution pass. With `ignoreErrors` every failure is swallowed
   and the failing cell left out; without it the first failing code cell
   aborts the pass.
   */
  method PreExecute(runs: seq<CellRun>, cfg: Config, transform: string -> string) returns (run: Run)
    ensures run == if !cfg.ignoreErrors && FirstFailure(runs).Some? then Raised(FirstFailure(runs).value)
                   else Completed(CwdPrefix(cfg.cwd) + Combined(runs, cfg, transform))
  {
    var source := CwdPrefix(cfg.cwd);
    ghost var prefix := source;
    assert runs[..0] == [];
    var i := 0;
    while i < |runs|
      invariant 0 <= i <= |runs|
      invariant source == prefix + Combined(runs[..i], cfg, transform)
      invariant !cfg.ignoreErrors ==> FirstFailure(runs[..i]) == None
    {
      var cell := runs[i].cell;
      ghost var before := source;
      if IsCode(cell) {
        var cellSource := BuildCellSource(cell, cfg, transform);
        if runs[i].succeeds {
          source := source + cellSource;
        } else if !cfg.ignoreErrors {
          FirstFailureStep(runs, i);
          return Raised(i);
        }
      }
      if !cfg.ignoreErrors {
        FirstFailureStep(runs, i);
      }
      PreStep(prefix, before, source, runs, i, cfg, transform);
      i := i + 1;
    }
    assert runs[..|runs|] == runs;
    return Completed(source);
  }

  // ---------------------------------------------------------------------
  // Lemmas

  /** `FirstFailure` names a failing code cell with no failing code cell before it, or reports that none fails. */
  lemma {:induction false} FirstFailureSpec(runs: seq<CellRun>)
    ensures var r := FirstFailure(runs);
            && (r.Some? ==> r.value < |runs| && Fails(runs[r.value]) && forall j :: 0 <= j < r.value ==> !Fails(runs[j]))
            && (r.None? ==> forall j :: 0 <= j < |runs| ==> !Fails(runs[j]))
  {
    if |runs| > 0 && !Fails(runs[0]) {
      FirstFailureSpec(runs[1..]);
      assert forall j :: 0 < j < |runs| ==> runs[j] == runs[1..][j - 1];
    }
  }

  /** The first `n` cells do not fail and the cell at `n`, if any, does: `FirstFailure` is `n`, or none. */
  lemma {:induction false} FirstFailureIs(runs: seq<CellRun>, n: nat)
    requires n <= |runs| && forall j :: 0 <= j < n ==> !Fails(runs[j])
    requires n < |runs| ==> Fails(runs[n])
    ensures FirstFailure(runs) == if n < |runs| then Some(n) else None
  {
    if n > 0 {
      assert forall j :: 0 <= j < n - 1 ==> runs[1..][j] == runs[j + 1];
      FirstFailureIs(runs[1..], n - 1);
    }
  }

  /** One more cell: a failing one is the first failure of all cells, any other extends the failure-free prefix. */
  lemma FirstFailureStep(runs: seq<CellRun>, i: nat)
    requires i < |runs| && FirstFailure(runs[..i]) == None
    ensures Fails(runs[i]) ==> FirstFailure(runs) == Some(i)
    ensures !Fails(runs[i]) ==> FirstFailure(runs[..i + 1]) == None
  {
    FirstFailureSpec(runs[..i]);
    assert forall j :: 0 <= j < i ==> runs[..i][j] == runs[j];
    if Fails(runs[i]) {
      FirstFailureIs(runs, i);
    } else {
      assert forall j :: 0 <= j <= i ==> runs[..i + 1][j] == runs[j];
      FirstFailureIs(runs[..i + 1], i + 1);
    }
  }

  /** What one source line adds to `code_lines`. */
  function LineCode(line: string, testDir: Option<string>, isString: bool): seq<string>
  {
    if Kept(line) then [NormalizedLine(line, testDir)] + (if isString then ["\n"] else []) else []
  }

  /** `LineCode` case by case, in the order the loop tests them. */
  lemma LineCodeCases(line: string, testDir: Option<string>, isString: bool)
    ensures StartsWith(line, "%") ==> LineCode(line, testDir, isString) == []
    ensures !StartsWith(line, "%") && !Contains(line, "interact(") && !HasNotebookCall(line)
            ==> LineCode(line, testDir, isString) == [line] + (if isString then ["\n"] else [])
    ensures !StartsWith(line, "%") && HasNotebookCall(line)
            ==> LineCode(line, testDir, isString)
                == [ReplaceAll(line, Replacement(ResolveTestDir(testDir)))] + (if isString then ["\n"] else [])
    ensures !StartsWith(line, "%") && Contains(line, "interact(") && !HasNotebookCall(line)
            ==> LineCode(line, testDir, isString) == []
  {
  }

  /** One step of the line loop: `code_lines` grows by what the line contributes, or stays when it contributes nothing. */
  lemma LineStep(before: seq<string>, after: seq<string>, lines: seq<string>, i: nat, testDir: Option<string>, isString: bool)
    requires i < |lines|
    requires ConcatAll(before) == LinesText(KeptLines(lines[..i], testDir), isString)
    requires LineCode(lines[i], testDir, isString) == [] ==> after == before
    requires LineCode(lines[i], testDir, isString) != [] ==> after == before + LineCode(lines[i], testDir, isString)
    ensures ConcatAll(after) == LinesText(KeptLines(lines[..i + 1], testDir), isString)
  {
    var add := LineCode(lines[i], testDir, isString);
    assert after == before + add;
    ConcatAllAppend(before, add);
    KeptLinesSnoc(lines, i, testDir, isString);
    if Kept(lines[i]) {
      var nl := NormalizedLine(lines[i], testDir);
      if isString {
        assert ConcatAll(add) == nl + ConcatAll(["\n"]);
      } else {
        assert ConcatAll(add) == nl + ConcatAll([]);
      }
    }
  }

  lemma {:induction false} NormalizedLinesAppend(a: seq<string>, b: seq<string>, testDir: Option<string>)
    ensures NormalizedLines(a + b, testDir) == NormalizedLines(a, testDir) + NormalizedLines(b, testDir)
  {
  }

  lemma {:induction false} TerminatedAppend(a: seq<string>, b: seq<string>, sep: char)
    ensures Terminated(a + b, sep) == Terminated(a, sep) + Terminated(b, sep)
  {
    if |a| == 0 {
      assert a + b == b;
    } else {
      assert (a + b)[0] == a[0];
      assert (a + b)[1..] == a[1..] + b;
      TerminatedAppend(a[1..], b, sep);
    }
  }

  /** One more source line adds its normalised text, or nothing if it is dropped. */
  lemma KeptLinesSnoc(lines: seq<string>, i: nat, testDir: Option<string>, isString: bool)
    requires i < |lines|
    ensures LinesText(KeptLines(lines[..i + 1], testDir), isString)
         == LinesText(KeptLines(lines[..i], testDir), isString)
            + (if Kept(lines[i]) then NormalizedLine(lines[i], testDir) + (if isString then "\n" else "") else "")
  {
    SelectSnoc(lines, i, Kept);
    var pre := Select(lines[..i], Kept);
    var add := if Kept(lines[i]) then [lines[i]] else [];
    NormalizedLinesAppend(pre, add, testDir);
    var a, b := NormalizedLines(pre, testDir), NormalizedLines(add, testDir);
    TerminatedAppend(a, b, '\n');
    ConcatAllAppend(a, b);
  }

  lemma {:induction false} CellTextsAppend(a: seq<CellRun>, b: seq<CellRun>, cfg: Config, transform: string -> string)
    ensures CellTexts(a + b, cfg, transform) == CellTexts(a, cfg, transform) + CellTexts(b, cfg, transform)
  {
    if |a| == 0 {
      assert a + b == b;
    } else {
      assert (a + b)[0] == a[0];
      assert (a + b)[1..] == a[1..] + b;
      CellTextsAppend(a[1..], b, cfg, transform);
    }
  }

  lemma CombinedAppend(a: seq<CellRun>, b: seq<CellRun>, cfg: Config, transform: string -> string)
    ensures Combined(a + b, cfg, transform) == Combined(a, cfg, transform) + Combined(b, cfg, transform)
  {
    SelectAppend(a, b, Succeeded);
    CellTextsAppend(Select(a, Succeeded), Select(b, Succeeded), cfg, transform);
    ConcatAllAppend(CellTexts(Select(a, Succeeded), cfg, transform), CellTexts(Select(b, Succeeded), cfg, transform));
  }

  lemma CombinedOne(r: CellRun, cfg: Config, transform: string -> string)
    ensures Combined([r], cfg, transform) == if Succeeded(r) then CellText(r.cell, cfg, transform) else ""
  {
    assert Select([r], Succeeded) == (if Succeeded(r) then [r] else []) + Select([r][1..], Succeeded);
    if Succeeded(r) {
      assert CellTexts([r], cfg, transform) == [CellText(r.cell, cfg, transform)] + CellTexts([], cfg, transform);
      assert ConcatAll([CellText(r.cell, cfg, transform)]) == CellText(r.cell, cfg, transform) + ConcatAll([]);
    }
  }

  lemma CombinedSnoc(runs: seq<CellRun>, i: nat, cfg: Config, transform: string -> string)
    requires i < |runs|
    ensures Combined(runs[..i + 1], cfg, transform)
         == Combined(runs[..i], cfg, transform) + (if Succeeded(runs[i]) then CellText(runs[i].cell, cfg, transform) else "")
  {
    assert runs[..i + 1] == runs[..i] + [runs[i]];
    CombinedAppend(runs[..i], [runs[i]], cfg, transform);
    CombinedOne(runs[i], cfg, transform);
  }

  /** One step of the accumulation loop: a code cell that ran extends the source by its text, any other cell leaves it. */
  lemma PreStep(prefix: string, before: string, after: string, runs: seq<CellRun>, i: nat, cfg: Config, transform: string -> string)
    requires i < |runs|
    requires before == prefix + Combined(runs[..i], cfg, transform)
    requires Succeeded(runs[i]) ==> after == before + CellText(runs[i].cell, cfg, transform)
    requires !Succeeded(runs[i]) ==> after == before
    ensures after == prefix + Combined(runs[..i + 1], cfg, transform)
  {
    var done := Combined(runs[..i], cfg, transform);
    CombinedSnoc(runs, i, cfg, transform);
    if Succeeded(runs[i]) {
      AppendAssoc(prefix, done, CellText(runs[i].cell, cfg, transform));
    } else {
      assert done + "" == done;
    }
  }

  /**
   Each cell's place in the combined source: the cells before it, then its
   own text if it is a code cell that ran and nothing otherwise, then the
   cells after it.
   */
  lemma CombinedAround(runs: seq<CellRun>, i: nat, cfg: Config, transform: string -> string)
    requires i < |runs|
    ensures Combined(runs, cfg, transform)
         == Combined(runs[..i], cfg, transform)
            + (if Succeeded(runs[i]) then CellText(runs[i].cell, cfg, transform) else "")
            + Combined(runs[i + 1..], cfg, transform)
  {
    assert runs == runs[..i + 1] + runs[i + 1..];
    CombinedAppend(runs[..i + 1], runs[i + 1..], cfg, transform);
    CombinedSnoc(runs, i, cfg, transform);
  }

  /**
   The lines of a cell are filtered, not reordered: the output is the
   normalised text of exactly the input lines that are `Kept`, at increasing
   positions.
   */
  lemma KeptLinesSpec(lines: seq<string>, testDir: Option<string>)
    ensures var out, ix := KeptLines(lines, testDir), Positions(lines, Kept);
            && |out| == |ix|
            && (forall j :: 0 <= j < |ix| ==> ix[j] < |lines| && out[j] == NormalizedLine(lines[ix[j]], testDir))
            && (forall j, k :: 0 <= j < k < |ix| ==> ix[j] < ix[k])
            && (forall i :: 0 <= i < |lines| ==> (i in ix <==> Kept(lines[i])))
  {
    SelectPositions(lines, Kept);
  }

  /** No kept line is a magic, and a kept line using `interact(` also has an `otter.Notebook(...)` call. */
  lemma KeptLinesFiltered(lines: seq<string>, testDir: Option<string>, i: nat)
    requires i < |lines| && i in Positions(lines, Kept)
    ensures !StartsWith(lines[i], "%")
    ensures Contains(lines[i], "interact(") ==> HasNotebookCall(lines[i])
  {
    SelectPositions(lines, Kept);
  }

  /**
   For a string source, splitting the normalised code on line breaks gives
   back the kept lines, each of which was followed by exactly one line break.
   */
  lemma StringCellLines(text: string, testDir: Option<string>)
    requires '\n' !in ResolveTestDir(testDir)
    ensures Split(CellCode(SourceString(text), testDir), '\n') == KeptLines(Split(text, '\n'), testDir) + [""]
  {
    var lines := Split(text, '\n');
    var sel := Select(lines, Kept);
    SelectPositions(lines, Kept);
    var out := KeptLines(lines, testDir);
    forall j | 0 <= j < |out| ensures '\n' !in out[j] {
      var l := sel[j];
      assert '\n' !in l;
      if HasNotebookCall(l) {
        ReplacementNoNewline(ResolveTestDir(testDir));
        ReplaceAllNoNewline(l, Replacement(ResolveTestDir(testDir)));
      }
    }
    SplitTerminated(out, '\n');
  }

  /** A list source concatenates its kept lines unchanged in form. */
  lemma ListCellText(lines: seq<string>, testDir: Option<string>)
    ensures CellCode(SourceLines(lines), testDir) == ConcatAll(KeptLines(lines, testDir))
  {
  }
}
