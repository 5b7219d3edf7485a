/**
 The `otter\.Notebook\(.*?\)` search and substitution applied to every cell
 line (otter/execute.py:282-294) and script line (otter/execute.py:379-386).

 A match starts at an occurrence of `otter.Notebook(` and ends at the first
 `)` after it; because `.` does not match a line break, an occurrence whose
 first following `)` comes after a `'\n'` (or that has no `)` at all) is not
 a match. `re.sub` replaces every non-overlapping match, scanning left to
 right and resuming after the end of each replaced match.
 */
module NotebookCall {
  import opened Wrappers
  import opened Text

  const Opener := "otter.Notebook("

  /** The suite directory used when no test directory is configured. */
  const DefaultTestDir := "/home/tests"

  /** `s[k]` is a `)` reachable from `j` without crossing a line break. */
  predicate Closes(s: string, j: nat, k: nat)
  {
    j <= k < |s| && s[k] == ')' && forall m :: j <= m < k ==> s[m] != '\n'
  }

  /** Where the lazy `.*?\)` that starts at `j` ends, if it can end at all. */
  function CloseAt(s: string, j: nat): (r: Option<nat>)
    requires j <= |s|
    decreases |s| - j
    ensures r.Some? ==> j <= r.value < |s| && s[r.value] == ')'
  {
    if j == |s| then None
    else if s[j] == ')' then Some(j)
    else if s[j] == '\n' then None
    else CloseAt(s, j + 1)
  }

  /** The pattern matches `s` at `p`. */
  predicate MatchAt(s: string, p: nat)
  {
    OccursAt(s, Opener, p) && CloseAt(s, p + |Opener|).Some?
  }

  /** The leftmost match at or after `from`: its start and the index of its `)`. */
  function FindMatch(s: string, from: nat): (r: Option<(nat, nat)>)
    requires from <= |s|
    decreases |s| - from
    ensures r.Some? ==> from <= r.value.0 && r.value.0 + |Opener| <= r.value.1 < |s|
  {
    if from == |s| then None
    else if MatchAt(s, from) then Some((from, CloseAt(s, from + |Opener|).value))
    else FindMatch(s, from + 1)
  }

  /** A match ends at the first `)` not preceded by a line break; none if a line break comes first. */
  lemma {:induction false} CloseAtSpec(s: string, j: nat)
    requires j <= |s|
    ensures var r := CloseAt(s, j);
            && (r.Some? ==> Closes(s, j, r.value) && forall m :: j <= m < r.value ==> s[m] != ')')
            && (r.None? ==> forall k :: j <= k < |s| ==> !Closes(s, j, k))
    decreases |s| - j
  {
    if j < |s| && s[j] != ')' && s[j] != '\n' {
      CloseAtSpec(s, j + 1);
      assert forall k :: j < k < |s| && Closes(s, j, k) ==> Closes(s, j + 1, k);
    }
  }

  /** `FindMatch` finds the leftmost match, or reports that there is none. */
  lemma FindMatchSpec(s: string, from: nat)
    requires from <= |s|
    ensures var r := FindMatch(s, from);
            && (r.Some? ==> from <= r.value.0 && MatchAt(s, r.value.0)
                            && r.value.1 == CloseAt(s, r.value.0 + |Opener|).value
                            && forall p :: from <= p < r.value.0 ==> !MatchAt(s, p))
            && (r.None? ==> forall p :: from <= p <= |s| ==> !MatchAt(s, p))
  {
    FindMatchFound(s, from);
    FindMatchNone(s, from);
  }

  lemma {:induction false} FindMatchFound(s: string, from: nat)
    requires from <= |s|
    ensures var r := FindMatch(s, from);
            r.Some? ==> from <= r.value.0 && MatchAt(s, r.value.0)
                        && r.value.1 == CloseAt(s, r.value.0 + |Opener|).value
                        && forall p :: from <= p < r.value.0 ==> !MatchAt(s, p)
    decreases |s| - from
  {
    if from < |s| && !MatchAt(s, from) {
      FindMatchFound(s, from + 1);
      assert FindMatch(s, from) == FindMatch(s, from + 1);
    }
  }

  lemma {:induction false} FindMatchNone(s: string, from: nat)
    requires from <= |s|
    ensures FindMatch(s, from).None? ==> forall p :: from <= p <= |s| ==> !MatchAt(s, p)
    decreases |s| - from
  {
    if from == |s| {
      assert !OccursAt(s, Opener, from);
    } else if !MatchAt(s, from) {
      FindMatchNone(s, from + 1);
      assert FindMatch(s, from) == FindMatch(s, from + 1);
    }
  }

  /** The leftmost match is the one `FindMatch` reports. */
  lemma {:induction false} FindMatchIs(s: string, from: nat, p: nat)
    requires from <= p <= |s| && MatchAt(s, p)
    requires forall j :: from <= j < p ==> !MatchAt(s, j)
    ensures FindMatch(s, from) == Some((p, CloseAt(s, p + |Opener|).value))
    decreases p - from
  {
    if from < p {
      FindMatchIs(s, from + 1, p);
    }
  }

  /** `re.search(r"otter\.Notebook\(.*?\)", s)` succeeds. */
  predicate HasNotebookCall(s: string)
  {
    FindMatch(s, 0).Some?
  }

  /** `re.sub(r"otter\.Notebook\(.*?\)", repl, s)`, with `repl` taken literally. */
  function ReplaceAll(s: string, repl: string): string
    decreases |s|
  {
    match FindMatch(s, 0)
    case None => s
    case Some((p, k)) => s[..p] + repl + ReplaceAll(s[k + 1..], repl)
  }

  /** `test_dir` if it is set and non-empty, else the default directory. */
  function ResolveTestDir(testDir: Option<string>): (dir: string)
    ensures dir != ""
    ensures dir == DefaultTestDir || (testDir.Some? && dir == testDir.value)
    ensures (testDir.None? || PlainDir(testDir.value)) ==> PlainDir(dir)
  {
    if testDir.Some? && testDir.value != "" then testDir.value else DefaultTestDir
  }

  /** `otter.Notebook("<dir>")`. */
  function Replacement(dir: string): string
  {
    Opener + "\"" + dir + "\")"
  }

  /** A directory that can stand inside the call without closing it early or breaking the line. */
  predicate PlainDir(dir: string)
  {
    ')' !in dir && '\n' !in dir
  }

  /** `r` is one whole call: `otter.Notebook(`, then no `)` or line break, then `)`. */
  predicate CompleteCall(r: string)
  {
    && |r| > |Opener| && r[..|Opener|] == Opener && r[|r| - 1] == ')'
    && forall x :: |Opener| <= x < |r| - 1 ==> r[x] != ')' && r[x] != '\n'
  }

  lemma ReplacementComplete(dir: string)
    requires PlainDir(dir)
    ensures CompleteCall(Replacement(dir))
  {
    var r := Replacement(dir);
    forall x | |Opener| <= x < |r| - 1 ensures r[x] != ')' && r[x] != '\n' {
      if |Opener| < x <= |Opener| + |dir| {
        assert r[x] == dir[x - |Opener| - 1];
      }
    }
  }

  /** The rewrite applied to one line: every call now names the resolved suite directory. */
  function RewriteCalls(line: string, testDir: Option<string>): string
  {
    ReplaceAll(line, Replacement(ResolveTestDir(testDir)))
  }

  // ---------------------------------------------------------------------
  // Facts about the matcher

  /** Two occurrences of `otter.Notebook(` never overlap. */
  lemma OpenerNoOverlap(s: string, i: nat, p: nat)
    requires OccursAt(s, Opener, i) && OccursAt(s, Opener, p) && i < p
    ensures i + |Opener| <= p
  {
    var n := |Opener|;
    if p < i + n {
      var d := p - i;
      assert s[i..i + n] == Opener && s[p..p + n] == Opener;
      assert s[p..i + n] == Opener[d..] by {
        assert s[p..i + n] == s[i..i + n][d..];
      }
      assert s[p..i + n] == Opener[..n - d] by {
        assert s[p..i + n] == s[p..p + n][..n - d];
      }
      OpenerNoBorder(d);
    }
  }

  /** No proper suffix of `otter.Notebook(` is also a prefix of it. */
  lemma OpenerNoBorder(d: nat)
    requires 0 < d < |Opener|
    ensures Opener[d..] != Opener[..|Opener| - d]
  {
    assert Opener[d..][|Opener| - d - 1] == '(';
    assert forall m :: 0 <= m < |Opener| - 1 ==> Opener[m] != '(';
  }

  /** Characters that are neither `)` nor a line break do not change where a match ends. */
  lemma {:induction false} CloseAtSkip(s: string, j: nat, m: nat)
    requires j <= m <= |s|
    requires forall x :: j <= x < m ==> s[x] != ')' && s[x] != '\n'
    ensures CloseAt(s, j) == CloseAt(s, m)
    decreases m - j
  {
    if j < m {
      CloseAtSkip(s, j + 1, m);
    }
  }

  /** Where a match ends depends only on the text up to the first `)` or line break. */
  lemma {:induction false} CloseAtPrefix(s: string, t: string, j: nat, m: nat, x: nat)
    requires j <= x < m <= |s| && m <= |t| && s[..m] == t[..m]
    requires s[x] == ')' || s[x] == '\n'
    ensures CloseAt(s, j) == CloseAt(t, j)
    decreases x - j
  {
    assert s[j] == s[..m][j] == t[..m][j] == t[j];
    if s[j] != ')' && s[j] != '\n' {
      CloseAtPrefix(s, t, j + 1, m, x);
    }
  }

  /** The replacement text is itself a complete call. */
  lemma ReplacementMatches(pre: string, r: string, post: string, t: string)
    requires CompleteCall(r) && t == pre + r + post
    ensures MatchAt(t, |pre|)
    ensures CloseAt(t, |pre| + |Opener|) == Some(|pre| + |r| - 1)
  {
    var p := |pre|;
    assert forall x :: p <= x < p + |r| ==> t[x] == r[x - p];
    assert t[p..p + |Opener|] == r[..|Opener|];
    CloseAtSkip(t, p + |Opener|, p + |r| - 1);
    assert CloseAt(t, p + |r| - 1) == Some(p + |r| - 1);
  }

  /**
   An occurrence of `otter.Notebook(` before a match `p` that is not itself
   a match stays one when the text from `p + |Opener|` on is changed.
   */
  lemma StillNoMatch(s: string, t: string, i: nat, p: nat)
    requires OccursAt(s, Opener, i) && i + |Opener| <= p && MatchAt(s, p)
    requires !MatchAt(s, i)
    requires p + |Opener| <= |t| && s[..p + |Opener|] == t[..p + |Opener|]
    ensures CloseAt(t, i + |Opener|).None?
  {
    var n := |Opener|;
    BreakBefore(s, i + n, p + n);
    var x :| i + n <= x < p + n && s[x] == '\n';
    CloseAtPrefix(s, t, i + n, p + n, x);
  }

  /** If a match cannot end from `j` but can from a later `m`, a line break lies between them. */
  lemma {:induction false} BreakBefore(s: string, j: nat, m: nat)
    requires j <= m <= |s| && CloseAt(s, j).None? && CloseAt(s, m).Some?
    ensures exists x :: j <= x < m && s[x] == '\n'
    decreases m - j
  {
    if s[j] != '\n' {
      BreakBefore(s, j + 1, m);
      var x :| j + 1 <= x < m && s[x] == '\n';
      assert j <= x < m;
    }
  }


  /** No match starts before the first one of `s` once that one is rewritten. */
  lemma NoEarlierMatch(s: string, p: nat, r: string, t: string, i: nat)
    requires MatchAt(s, p) && forall j :: 0 <= j < p ==> !MatchAt(s, j)
    requires |r| >= |Opener| && r[..|Opener|] == Opener
    requires |t| >= p + |r| && t[..p] == s[..p] && t[p..p + |r|] == r
    requires i < p
    ensures !MatchAt(t, i)
  {
    var n := |Opener|;
    assert OccursAt(s, Opener, p);
    assert s[..p + n] == t[..p + n] by {
      assert t[..p + n] == t[..p] + t[p..p + n];
      assert t[p..p + n] == r[..n];
      assert s[..p + n] == s[..p] + s[p..p + n];
    }
    if OccursAt(t, Opener, i) {
      assert i + n <= p + n <= |s|;
      SliceOfCommonPrefix(s, t, p + n, i, i + n);
      OpenerNoOverlap(s, i, p);
      StillNoMatch(s, t, i, p);
    }
  }

  /** A line without a call is left as it is. */
  lemma NoCallUnchanged(s: string, repl: string)
    requires !HasNotebookCall(s)
    ensures ReplaceAll(s, repl) == s
  {
  }

  /**
   After the substitution every call in the line already names the resolved
   directory: substituting once more changes nothing.
   */
  lemma ReplaceAllIdempotent(s: string, dir: string)
    requires PlainDir(dir)
    ensures ReplaceAll(ReplaceAll(s, Replacement(dir)), Replacement(dir)) == ReplaceAll(s, Replacement(dir))
  {
    ReplacementComplete(dir);
    ReplaceAllFixed(s, Replacement(dir));
  }

  lemma {:induction false} ReplaceAllFixed(s: string, r: string)
    requires CompleteCall(r)
    ensures ReplaceAll(ReplaceAll(s, r), r) == ReplaceAll(s, r)
    decreases |s|
  {
    var m := FindMatch(s, 0);
    FindMatchSpec(s, 0);
    if m.Some? {
      var p, k := m.value.0, m.value.1;
      var rest := ReplaceAll(s[k + 1..], r);
      ReplaceAllAt(s, p, k, r);
      RewriteAgain(s, p, r, rest, s[..p] + r + rest);
      ReplaceAllFixed(s[k + 1..], r);
    }
  }

  /** Substituting again in a rewritten text skips the replacement and goes on with the text after it. */
  lemma RewriteAgain(s: string, p: nat, r: string, rest: string, t: string)
    requires CompleteCall(r)
    requires MatchAt(s, p) && forall j :: 0 <= j < p ==> !MatchAt(s, j)
    requires p <= |s| && t == s[..p] + r + rest
    ensures ReplaceAll(t, r) == s[..p] + r + ReplaceAll(rest, r)
  {
    RewrittenFirstMatch(s, p, r, rest, t);
    ReplaceAllAt(t, p, p + |r| - 1, r);
    assert t[..p] == s[..p] && t[p + |r|..] == rest;
  }

  lemma ReplaceAllAt(t: string, p: nat, e: nat, r: string)
    requires FindMatch(t, 0) == Some((p, e))
    ensures ReplaceAll(t, r) == t[..p] + r + ReplaceAll(t[e + 1..], r)
  {
  }

  /** Once the first match of `s` is rewritten, the replacement is the first match. */
  lemma RewrittenFirstMatch(s: string, p: nat, r: string, rest: string, t: string)
    requires CompleteCall(r)
    requires MatchAt(s, p) && forall j :: 0 <= j < p ==> !MatchAt(s, j)
    requires p <= |s| && t == s[..p] + r + rest
    ensures FindMatch(t, 0) == Some((p, p + |r| - 1))
  {
    ReplacementMatches(s[..p], r, rest, t);
    assert t[..p] == s[..p] && t[p..p + |r|] == r;
    forall i | 0 <= i < p ensures !MatchAt(t, i) {
      NoEarlierMatch(s, p, r, t, i);
    }
    FindMatchIs(t, 0, p);
  }

  /** The substitution adds no line break when the replacement has none. */
  lemma {:induction false} ReplaceAllNoNewline(s: string, repl: string)
    requires '\n' !in s && '\n' !in repl
    ensures '\n' !in ReplaceAll(s, repl)
    decreases |s|
  {
    match FindMatch(s, 0)
    case None =>
    case Some((p, k)) =>
      assert '\n' !in s[k + 1..] by {
        var tail := s[k + 1..];
        forall x | 0 <= x < |tail| ensures tail[x] != '\n' { assert tail[x] == s[k + 1 + x]; }
      }
      ReplaceAllNoNewline(s[k + 1..], repl);
      assert '\n' !in s[..p] by {
        forall x | 0 <= x < p ensures s[..p][x] != '\n' { assert s[..p][x] == s[x]; }
      }
  }

  /** The replacement call has no line break when the directory has none. */
  lemma ReplacementNoNewline(dir: string)
    requires '\n' !in dir
    ensures '\n' !in Replacement(dir)
  {
    var r := Replacement(dir);
    forall x | 0 <= x < |r| ensures r[x] != '\n' {
      if |Opener| < x <= |Opener| + |dir| {
        assert r[x] == dir[x - |Opener| - 1];
      }
    }
  }

  /** A rewritten line keeps its calls: it has one exactly when the original had one. */
  lemma RewriteKeepsCalls(s: string, dir: string)
    requires PlainDir(dir)
    ensures HasNotebookCall(ReplaceAll(s, Replacement(dir))) <==> HasNotebookCall(s)
  {
    var r := Replacement(dir);
    ReplacementComplete(dir);
    var m := FindMatch(s, 0);
    FindMatchSpec(s, 0);
    if m.Some? {
      var p, k := m.value.0, m.value.1;
      var rest := ReplaceAll(s[k + 1..], r);
      ReplaceAllAt(s, p, k, r);
      ReplacementMatches(s[..p], r, rest, s[..p] + r + rest);
      FindMatchSpec(s[..p] + r + rest, 0);
    }
  }

  // ---------------------------------------------------------------------
  // The per-line rewrite shared by notebooks and scripts

  /** A line, with its `otter.Notebook(...)` calls rewritten if it has any. */
  function NormalizedLine(line: string, testDir: Option<string>): string
  {
    if HasNotebookCall(line) then RewriteCalls(line, testDir) else line
  }

  function NormalizedLines(lines: seq<string>, testDir: Option<string>): (r: seq<string>)
    ensures |r| == |lines| && forall j :: 0 <= j < |lines| ==> r[j] == NormalizedLine(lines[j], testDir)
  {
    if |lines| == 0 then [] else [NormalizedLine(lines[0], testDir)] + NormalizedLines(lines[1..], testDir)
  }

  /** Every `otter.Notebook(...)` call in a normalised line already names the resolved directory. */
  lemma NormalizedLineCanonical(line: string, testDir: Option<string>)
    requires PlainDir(ResolveTestDir(testDir))
    ensures RewriteCalls(NormalizedLine(line, testDir), testDir) == NormalizedLine(line, testDir)
  {
    if HasNotebookCall(line) {
      ReplaceAllIdempotent(line, ResolveTestDir(testDir));
    }
  }

  /** The `re.search` guard in front of the rewrite changes nothing: without a call `re.sub` is the identity. */
  lemma NormalizedLineIsRewrite(line: string, testDir: Option<string>)
    ensures NormalizedLine(line, testDir) == RewriteCalls(line, testDir)
  {
    if !HasNotebookCall(line) {
      NoCallUnchanged(line, Replacement(ResolveTestDir(testDir)));
    }
  }
}
