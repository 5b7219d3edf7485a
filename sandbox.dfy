/**
 The textual part of the sandbox: the configuration a grading run recognises
 and the statements put in front of the executed code for a working
 directory (appended to the module search path) and for a seed.
 */
module Sandbox {
  import opened Wrappers
  import opened Text

  /**
   The recognised options. `cwd` and `testDir` count as set only when present
   and non-empty (the source tests them for truth); `seed` counts as set
   whenever present, zero included.
   */
  datatype Config = Config(ignoreErrors: bool, cwd: Option<string>, testDir: Option<string>, seed: Option<int>)

  /** The outcome of a pre-execution pass: the combined source, or the failure that aborted it. */
  datatype Run = Completed(source: string) | Raised(cell: nat)

  predicate IsSet(opt: Option<string>)
  {
    opt.Some? && opt.value != ""
  }

  /** `import sys` and `sys.path.append("<cwd>")`, each on its own line; nothing without a `cwd`. */
  function CwdPrefix(cwd: Option<string>): (r: string)
    ensures !IsSet(cwd) ==> r == ""
    ensures IsSet(cwd) ==> StartsWith(r, "import sys\n") && r[|r| - 1] == '\n'
  {
    if IsSet(cwd) then "import sys\nsys.path.append(\"" + cwd.value + "\")\n" else ""
  }

  /** `np.random.seed(S)` and `random.seed(S)`, each on its own line; nothing without a seed. */
  function SeedPrefix(seed: Option<int>): (r: string)
    ensures seed.None? ==> r == ""
    ensures seed.Some? ==> StartsWith(r, "np.random.seed(") && r[|r| - 1] == '\n'
  {
    match seed
    case None => ""
    case Some(s) =>
      var n := IntToString(s);
      "np.random.seed(" + n + ")\nrandom.seed(" + n + ")\n"
  }
}
