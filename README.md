# Otter grading execution, modelled in Dafny

Otter grades a student submission in three steps. Each is in `otter/execute.py`.

- **Document mode** (`execute_notebook`). The code cells of a notebook are processed in order:
  - IPython magics and `interact(` widget lines are dropped;
  - every `otter.Notebook(...)` call is rewritten to name the test directory;
  - the seed statements are put in front of each cell;
  - each cell is executed once, cell by cell, and the cells that ran are collected into one combined source.
- **Script mode** (`execute_script`). The same call rewrite is applied to every line of a script, in place. The rewritten script is put behind the working-directory and seed prefixes.
- **Grading** (`grade_notebook`). The results the checks collected are completed with extra test files that no run path covers. Pre-graded results replace earlier ones by deleting entries at positions in the flattened path list. Everything is then reduced to a score mapping with `"total"` and `"possible"` keys.

The model is imperative where the code is:
- Loops become `while`/`for` loops with invariants.
- The in-place `lines[i] = line` rewrite works on an `array`.
- `code_lines`, `source`, `test_results` and `score_mapping` are `seq`, `string` and `map` locals that the methods reassign.

Each method is proved equal to a specification function. The properties of those functions are proved as lemmas.

Execution is not modelled. Its outcomes are inputs:
- a success flag per notebook cell, and one flag for a script's `exec`;
- `second`, a function from the combined source to a `SecondPass`: whether `ast.parse` accepts that source, whether its execution raises, and which results the checks collected;
- an opaque function `transform` for IPython's `transform_cell`;
- a function `run` for `OKTests([t]).run`.

Files:
- `wrappers.dfy`: `Option`, `Result`.
- `text.dfy`: Python `startswith`, `in`, `split`, `join`, `''.join`, and integer formatting.
- `selection.dfy`: list filtering and the positions it keeps.
- `sorting.dfy`: `sorted` on strings.
- `sandbox.dfy`: the configuration and the `cwd`/seed prefixes.
- `notebook_call.dfy`: the `otter\.Notebook\(.*?\)` search and substitution.
- `notebook_execution.dfy`: document mode.
- `script_execution.dfy`: script mode.
- `results.dfy`: test results and the score-mapping key.
- `merging.dfy`: extra tests and pre-graded results.
- `score_mapping.dfy`: the score mapping.
- `grading.dfy`: `grade_notebook`.

## Model

| member | source | states |
|---|---|---|
| NotebookCall.CloseAtSpec | otter/execute.py:282 | a match of `.*?\)` ends at the first `)` after `otter.Notebook(`; there is no match when a line break or the end of the text comes first |
| NotebookCall.FindMatchSpec | otter/execute.py:282 | `re.search` finds the leftmost match, and no match starts earlier; no result means no position matches |
| NotebookCall.ReplaceAllIdempotent | otter/execute.py:292-294 | substituting `otter.Notebook("<dir>")` a second time changes nothing when the directory has no `)` or line break, i.e. every call already names the directory |
| NotebookCall.RewriteKeepsCalls | otter/execute.py:286-295 | a line still has a call after the rewrite exactly when it had one before |
| NotebookCall.ReplaceAllNoNewline | otter/execute.py:292-294 | the substitution adds no line break when the replacement has none |
| NotebookCall.ReplaceAllFixed | otter/execute.py:292-294 | substituting any complete `otter.Notebook(...)` call into a text where every call already is that call changes nothing |
| NotebookCall.NoCallUnchanged | otter/execute.py:379 | `re.sub` leaves a line without a call as it is |
| NotebookCall.NormalizedLines | otter/execute.py:377-387 | the rewritten list has one entry per line, each the normalised form of the line at the same position |
| NotebookCall.NormalizedLineCanonical | otter/execute.py:286-295 | once a line is rewritten, its calls name the resolved directory, so rewriting again is the identity |
| NotebookCall.NormalizedLineIsRewrite | otter/execute.py:379-386 | the `re.search` guard does not matter: every normalised line equals the plainly substituted line |
| Sandbox.CwdPrefix | otter/execute.py:250-251 | an empty prefix without a non-empty `cwd`; otherwise `import sys` and the path append, ending in a line break |
| Sandbox.SeedPrefix | otter/execute.py:298-299 | an empty prefix with no seed; otherwise a prefix starting with `np.random.seed(` and ending in a line break, with seed 0 counting as set |
| NotebookExecution.FirstFailureSpec | otter/execute.py:265-311 | the index of the first code cell whose execution raised, with no failing code cell before it; no index when no code cell fails |
| NotebookExecution.NormalizeCell | otter/execute.py:271-297 | `''.join(code_lines)` is the cell's kept, rewritten lines, each followed by `'\n'` for a string source and concatenated unchanged for a list source |
| NotebookExecution.ProcessLine | otter/execute.py:281-297 | a magic line adds nothing; a line with `interact(` and no call adds nothing; a line with a call adds its rewrite; any other line adds itself; a string source adds a `'\n'` after each added line |
| NotebookExecution.BuildCellSource | otter/execute.py:298-301 | the cell source is the transformed normalised code, preceded by the two seed statements exactly when a seed is given |
| NotebookExecution.PreExecute | otter/execute.py:246-311 | with `ignore_errors` the source is the `cwd` prefix followed by the texts of exactly the code cells that ran, in order; otherwise the first failing code cell aborts the pass, and the same source results when none fails |
| NotebookExecution.KeptLinesSpec | otter/execute.py:278-297 | the kept lines are the lines that are not magics and use `interact(` only together with a call, in their original order, each one normalised |
| NotebookExecution.KeptLinesFiltered | otter/execute.py:281-283 | no kept line starts with `%`, and a kept line containing `interact(` also has an `otter.Notebook(...)` match |
| NotebookExecution.StringCellLines | otter/execute.py:274-285 | for a string source, splitting the cell code on line breaks gives the kept lines and one empty tail, so each kept line is followed by exactly one `'\n'` |
| NotebookExecution.CombinedAround | otter/execute.py:306-308 | a cell adds its text to the source exactly when it is a code cell that ran, between the texts of the cells before and after it |
| ScriptExecution.RewriteLines | otter/execute.py:377-387 | the array afterwards holds, at every index, the original line with its calls rewritten, or the line unchanged if it has none |
| ScriptExecution.ExecuteScript | otter/execute.py:362-393 | the source is the `cwd` prefix, the seed prefix and the rewritten lines joined by `"\n"` when the script ran; only the prefixes when it raised with errors ignored; otherwise the failure propagates |
| ScriptExecution.ScriptSource | otter/execute.py:388-390 | a script that ran leaves a source that starts with the two prefixes, and splitting the rest on line breaks gives back the rewritten lines |
| ScriptExecution.NoCallScriptUnchanged | otter/execute.py:376-390 | a script without any call is executed exactly as written |
| ScriptExecution.ScriptRewriteIdempotent | otter/execute.py:376-387 | rewriting an already rewritten script changes nothing |
| ScriptExecution.ScriptLinesRewritten | otter/execute.py:379-387 | every executed line is its original line with every call substituted |
| Sorting.Sort | otter/execute.py:121 | `sorted` returns a permutation of the test paths |
| Sorting.SortAscending | otter/execute.py:121 | `sorted` returns the paths in ascending code-point order |
| Sorting.BelowTotal | otter/execute.py:121 | any two strings are comparable |
| Sorting.BelowAntisymmetric | otter/execute.py:121 | two strings each below the other are equal |
| Merging.FlattenMembers | otter/execute.py:119 | `itertools.chain` lists a path exactly when it is a path of some result |
| Merging.FlattenAppend | otter/execute.py:134 | the chained list keeps the results' order: chaining a concatenation concatenates the chained lists |
| Merging.FlattenSingle | otter/execute.py:134 | with one path per result, position `i` of `tested_set` is the path of result `i` |
| Merging.CoveredFlatten | otter/execute.py:119-125 | a glob path is covered exactly when some path of some collected result is a substring of it |
| Merging.CoveredBySingle | otter/execute.py:138 | against a pre-graded result with one path, `any(...)` holds exactly when the tested path is a substring of that path |
| Merging.SelectExtraTests | otter/execute.py:117-127 | the nested loop keeps the sorted test paths that no path already run is a substring of, in sorted order |
| Merging.ExtraTestsSpec | otter/execute.py:117-127 | a path is an extra test exactly when it is in the glob and no run path is a substring of it, and the extra tests are ascending |
| Merging.Reverse | otter/execute.py:140 | `reverse()` puts the entry at `k` in position `len - 1 - k` |
| Merging.ApplyPregraded | otter/execute.py:131-144 | the loop deletes at the reversed removal indices of each pre-graded result, all computed on one flattened `tested_set`, then appends the pre-graded results; an out-of-range `del` is an error carrying its index |
| Merging.RemovalOrder | otter/execute.py:136-140 | the reversed removal indices run strictly downwards over exactly the positions whose path is a substring of some pre-graded path |
| Merging.DeleteDescending | otter/execute.py:141-142 | deleting at strictly decreasing indices removes the entries at all of them, and fails exactly when the first index is out of range |
| Merging.PruneStep | otter/execute.py:135-142 | one pre-graded result removes exactly the covered positions of the current list, and fails exactly when one of them is past its end |
| Merging.PregradedSuffix | otter/execute.py:144 | after the pre-graded step, the pre-graded results end the list, in their given order |
| Merging.WithoutSpec | otter/execute.py:141-142 | the remaining entries are exactly those at positions not deleted, in their original order |
| Merging.IntendedSpec | otter/execute.py:131-144 | the corrected step keeps exactly the results no pre-graded result supersedes, in order, and ends with the pre-graded results |
| Merging.AsWrittenMatchesIntended | otter/execute.py:134-142 | with one path per result and one pre-graded result, the code as written does what was intended |
| Merging.PregradedAsWrittenStale | otter/execute.py:134-142 | as written, the second pre-graded result deletes through a shifted index and removes the wrong result |
| Merging.PregradedAsWrittenOutOfRange | otter/execute.py:134-142 | as written, a result with two paths pushes a flattened index past the end of the result list, and `del` raises |
| Results.BaseNameSpec | otter/execute.py:151 | `os.path.split(name)[1]` is the longest suffix of the name without a `/` |
| Results.KeySpec | otter/execute.py:151 | `[:-3]` of the base name: the key has no `/` and, followed by the last three characters, gives back the base name; a base name shorter than three characters gives the empty key |
| Results.KeyOfPath | otter/execute.py:151 | a test `<dir>/<stem><ext>` with a three-character extension is keyed by its stem, for any directory |
| ScoreMapping.WellFormedRun | otter/execute.py:159-170 | the failed tests handled are a prefix of well-formed pairs, ended by the first malformed one |
| ScoreMapping.ComputeScores | otter/execute.py:146-176 | the loop builds the score mapping, with `"total"` the sum of `grade * value` over every test visited and `"possible"` the sum of the values |
| ScoreMapping.ScoreTests | otter/execute.py:150-158 | the test loop sets each test's entry in order and adds `grade * value` and `value` to the two running sums |
| ScoreMapping.ScoreFailures | otter/execute.py:159-170 | the failed-test loop attaches the hints of the well-formed pairs before the first malformed tuple, and ignores the rest |
| ScoreMapping.LastTestWins | otter/execute.py:150-156 | the last test with a key sets that key's entry to its weighted score and value |
| ScoreMapping.TestsLeaveOthers | otter/execute.py:150-156 | a key that no test names keeps its entry, or stays absent |
| ScoreMapping.LaterResultOverwrites | otter/execute.py:148-156 | a later result with a test for a key sets that key's score and possible, whatever earlier results recorded |
| ScoreMapping.FailuresKeepScores | otter/execute.py:159-168 | failed tests never change a score or possible value, and a new hint-only entry has neither |
| ScoreMapping.LastFailureHint | otter/execute.py:160-168 | the last failed test with a key sets that key's hint and hidden flag |
| ScoreMapping.MalformedSkipsRest | otter/execute.py:159-170 | an `IndexError` on a failed-test tuple skips only the rest of that result, silently |
| ScoreMapping.ScoresKeys | otter/execute.py:146-176 | the mapping's keys are `"total"`, `"possible"` and the key of every test or handled failed test |
| ScoreMapping.EarnedAtMostPossible | otter/execute.py:153-158 | with grades in `[0, 1]` and non-negative values, `"total"` lies between 0 and `"possible"` |
| ScoreMapping.RepeatedResultCountsTwice | otter/execute.py:148-158 | a result that appears twice in the list adds its tests' values twice to `"possible"` and their weighted scores twice to `"total"` |
| Grading.GradeNotebook | otter/execute.py:99-176 | grading runs the chosen mode, hands the combined source of a completed first pass to the second pass, adds the extra tests, applies the pre-graded results and scores the list; the result equals `Grade`, including which step raised |
| Grading.FirstPassRaisesSpec | otter/execute.py:108-111 | the first pass raises exactly when errors are not ignored and a notebook code cell or the script's `exec` failed |
| Grading.GradedTotals | otter/execute.py:113-176 | a graded submission's first pass completed, and its `"total"` and `"possible"` are the sums over the list scored from the results collected on that pass's source; that list ends with the pre-graded results |
| Grading.ExtraTestsAdded | otter/execute.py:113-129 | without pre-graded results the scored list starts with the collected results, and each later entry is the run of an uncovered glob path |
| Grading.IgnoredErrorsOnlyStopAtParseOrDeletion | otter/execute.py:108-144 | with `ignore_errors`, the first pass always completes, grading rejects the source exactly when its combined source does not parse, and fails otherwise only on an out-of-range deletion |
| Grading.IntendedNeverOutOfRange | otter/execute.py:131-144 | with the corrected pre-graded step, grading fails exactly when the first pass raises, its combined source does not parse, or the second execution raises with errors not ignored |
| Grading.GradeAgreesWhenSingle | otter/execute.py:131-144 | with one path per scored result and one pre-graded result, the as-written and the corrected grading return the same mapping |

## Left out

- File reading and JSON decoding of the notebook or script (otter/execute.py:86-97), and the `get_ipython` assertion: these are I/O and environment probing.
- `exec`, `compile`, `ast.parse` and the `CheckCallWrapper` rewrite. Python execution is not modellable, and `otter/ok_parser` is not part of this model. Their outcomes are inputs: a flag per cell, a flag per script, and the function `second`.
- The second pass depends on the combined source only. The state the first pass leaves in `global_env` (variables a cell defined) is not passed on to it.
- NotebookCall.ReplaceAll: the replacement is inserted literally. `re.sub` reads it as a template, so a backslash escape in `test_dir` (`\t`, `\1`, `\d`) would be expanded, or would make `re.sub` raise `re.error`, which the bare `except` of the cell loop (otter/execute.py:309) catches. The rewrite rows hold for a `test_dir` without backslashes.
- `IPythonInputSplitter.transform_cell`: foreign code, so it is the opaque parameter `transform`.
- `hide_outputs`, output redirection and `mock.patch('otter.Notebook.export')`: these are stream and patching side effects.
- The environment dictionary `global_env`: the `__name__` entry, the `np` and `random` modules, and the results list under `"check_results_" + secret`. Only the textual seed statements and the collected results are modelled. `id_generator` is randomness and is not modelled.
- `check` (otter/execute.py:30-57), `grade` (178-217) and `main` (415-477): they use frame inspection, filesystem globs, PDF conversion, argument parsing and CSV output.
- Grades and point values are exact `real`s, not IEEE floating point. Summation order and rounding are not modelled.
- `test_dir` in script mode: `grade_notebook` calls `execute_script` without `test_dir` (otter/execute.py:109). The model keeps this, so a script always uses `/home/tests` (`ScriptConfig`).
- Exceptions inside the scoring `try`: an `IndexError` can only come from a failed-test tuple with fewer than two entries. Such a tuple is the `Malformed` constructor. No other exception is modelled.
- The hint's `repr` is not modelled. A hint is kept as a value with its hidden flag.

## Findings

Both findings are in the pre-graded step.
- `Grading.GradeNotebook` and `Grading.Grade` follow the code as written.
- The corrected step is `Merging.WithPregradedIntended`. Its intended behaviour is proved in `Merging.IntendedSpec`.
- `Grading.GradeIntended` is grading with the corrected step.
- `Merging.AsWrittenMatchesIntended` and `Grading.GradeAgreesWhenSingle` show that the two agree when every result has one path and there is one pre-graded result.

| source | as written | input that shows it | evidently intended | confidence | as-written member | corrected member |
|---|---|---|---|---|---|---|
| otter/execute.py:134-142 | `tested_set` and the removal indices are computed once, but each pre-graded result deletes from the list already shortened by the previous one | results with paths `a`, `b`, `c` and pre-graded results with paths `a` and `b`: the list becomes `[b, p, q]` | drop every result a pre-graded result supersedes, giving `[c, p, q]` | medium, not executed | Merging.PregradedAsWrittenStale | Merging.IntendedSpec |
| otter/execute.py:134-142 | the removal indices are positions in the flattened path list, but they are deleted from the list of results | results with paths `[a1, a2]` and `[b]` and a pre-graded result with path `b`: `del test_results[2]` raises `IndexError` | drop the result with path `b`, giving `[a, p]` | medium, not executed | Merging.PregradedAsWrittenOutOfRange | Merging.IntendedSpec |
