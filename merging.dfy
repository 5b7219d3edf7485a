/**
 How `grade_notebook` assembles its list of test results before scoring:
 the results collected while the notebook ran, then one result for every
 extra test file that no collected path already covers, then the
 pre-graded results, after deleting the entries they supersede.

 Covering is Python's substring test `tested in t`, so `tests/q1.py`
 covers `/srv/lab/tests/q1.py` and also `tests/q1.py.bak`.
 The deletion indices are positions in the flattened list of all paths,
 computed once, but are used to delete entries of the result list as it
 shrinks (see `PregradedAsWritten*` for what that does).
 */
module Merging {
  import opened Wrappers
  import opened Text
  import opened Selection
  import opened Sorting
  import opened Results

  /** `list(itertools.chain(*[r.paths for r in results]))`. */
  function Flatten(results: seq<TestResult>): seq<string>
  {
    if |results| == 0 then [] else Flatten(results[..|results| - 1]) + results[|results| - 1].paths
  }

  // ---------------------------------------------------------------------
  // Extra tests

  /** Some path already run is a substring of `t`. */
  predicate Covered(testedSet: seq<string>, t: string)
  {
    exists k :: 0 <= k < |testedSet| && Contains(t, testedSet[k])
  }

  /** The chain keeps the results' paths in order: flattening a concatenation concatenates the flattenings. */
  lemma {:induction false} FlattenAppend(a: seq<TestResult>, b: seq<TestResult>)
    ensures Flatten(a + b) == Flatten(a) + Flatten(b)
    decreases |b|
  {
    if |b| == 0 {
      assert a + b == a;
    } else {
      var n := |b| - 1;
      assert (a + b)[..|a + b| - 1] == a + b[..n];
      FlattenAppend(a, b[..n]);
      AppendAssoc(Flatten(a), Flatten(b[..n]), b[n].paths);
    }
  }

  /** A path is in the flattened list exactly when it is a path of some result. */
  lemma {:induction false} FlattenMembers(results: seq<TestResult>, x: string)
    ensures x in Flatten(results) <==> exists i :: 0 <= i < |results| && x in results[i].paths
  {
    FlattenMembersUpTo(results, x, |results|);
    assert results[..|results|] == results;
  }

  lemma {:induction false} FlattenMembersUpTo(results: seq<TestResult>, x: string, n: nat)
    requires n <= |results|
    ensures x in Flatten(results[..n]) <==> exists i :: 0 <= i < n && x in results[i].paths
  {
    if n > 0 {
      FlattenMembersUpTo(results, x, n - 1);
      assert results[..n][..n - 1] == results[..n - 1];
    }
  }

  /** A test file is covered exactly when some path of some collected result is a substring of it. */
  lemma CoveredFlatten(results: seq<TestResult>, t: string)
    ensures Covered(Flatten(results), t)
            <==> exists i, x :: 0 <= i < |results| && x in results[i].paths && Contains(t, x)
  {
    var ts := Flatten(results);
    if Covered(ts, t) {
      var k :| 0 <= k < |ts| && Contains(t, ts[k]);
      FlattenMembers(results, ts[k]);
    }
    if exists i, x :: 0 <= i < |results| && x in results[i].paths && Contains(t, x) {
      var i, x :| 0 <= i < |results| && x in results[i].paths && Contains(t, x);
      FlattenMembers(results, x);
      var k :| 0 <= k < |ts| && ts[k] == x;
    }
  }

  /** In sorted order, the extra test files that no path already run covers. */
  method SelectExtraTests(testsGlob: seq<string>, testedSet: seq<string>) returns (extra: seq<string>)
    ensures extra == Select(Sort(testsGlob), t => !Covered(testedSet, t))
  {
    var sorted := Sort(testsGlob);
    extra := [];
    for i := 0 to |sorted|
      invariant extra == Select(sorted[..i], t => !Covered(testedSet, t))
    {
      var t := sorted[i];
      var isExtra := true;
      for k := 0 to |testedSet|
        invariant isExtra <==> forall x :: 0 <= x < k ==> !Contains(t, testedSet[x])
      {
        if Contains(t, testedSet[k]) {
          isExtra := false;
        }
      }
      if isExtra {
        extra := extra + [t];
      }
      SelectSnoc(sorted, i, t => !Covered(testedSet, t));
    }
    assert sorted[..|sorted|] == sorted;
  }

  /** The extra tests are exactly the uncovered test files, in ascending order. */
  lemma ExtraTestsSpec(testsGlob: seq<string>, testedSet: seq<string>)
    ensures var extra := Select(Sort(testsGlob), t => !Covered(testedSet, t));
            && (forall t :: t in extra <==> t in testsGlob && !Covered(testedSet, t))
            && Ascending(extra)
  {
    var sorted := Sort(testsGlob);
    var keep := t => !Covered(testedSet, t);
    SelectMembers(sorted, keep);
    forall t ensures t in sorted <==> t in testsGlob {
      assert t in sorted <==> t in multiset(sorted);
      assert t in testsGlob <==> t in multiset(testsGlob);
    }
    SortAscending(testsGlob);
    SelectAscending(sorted, keep);
  }

  /** Selecting from an ascending list keeps it ascending. */
  lemma SelectAscending(s: seq<string>, keep: string -> bool)
    requires Ascending(s)
    ensures Ascending(Select(s, keep))
  {
    var r, ix := Select(s, keep), Positions(s, keep);
    SelectPositions(s, keep);
    forall j, k | 0 <= j < k < |r| ensures Below(r[j], r[k]) {
      assert r[j] == s[ix[j]] && r[k] == s[ix[k]];
    }
  }

  /** `[OKTests([t]).run(...) for t in extra]`, with the run of one test file given as `run`. */
  function RunAll(run: string -> TestResult, paths: seq<string>): (r: seq<TestResult>)
    ensures |r| == |paths| && forall k :: 0 <= k < |paths| ==> r[k] == run(paths[k])
  {
    seq(|paths|, k requires 0 <= k < |paths| => run(paths[k]))
  }

  // ---------------------------------------------------------------------
  // Pre-graded results

  /** `any([tested in path for path in paths])`. */
  predicate CoveredBy(tested: string, paths: seq<string>)
  {
    exists p :: 0 <= p < |paths| && Contains(paths[p], tested)
  }

  /** The positions in `testedSet` of the paths that some path of a pre-graded result covers, ascending. */
  function RemovalIndices(testedSet: seq<string>, paths: seq<string>): seq<nat>
  {
    Positions(testedSet, tested => CoveredBy(tested, paths))
  }

  /** `list.reverse()`. */
  function Reverse<T>(s: seq<T>): (r: seq<T>)
    ensures |r| == |s| && forall k :: 0 <= k < |s| ==> r[k] == s[|s| - 1 - k]
  {
    if |s| == 0 then [] else [s[|s| - 1]] + Reverse(s[..|s| - 1])
  }

  /** `del s[i]` for each `i` in turn; an index past the end raises `IndexError`, reported with that index. */
  function DeleteEach<T>(s: seq<T>, indices: seq<nat>): Result<seq<T>, nat>
  {
    if |indices| == 0 then Ok(s)
    else if indices[0] >= |s| then Err(indices[0])
    else DeleteEach(s[..indices[0]] + s[indices[0] + 1..], indices[1..])
  }

  /** The deletions for each pre-graded result in turn, all indexing the one `testedSet`. */
  function Prune(current: seq<TestResult>, testedSet: seq<string>, pregraded: seq<TestResult>): Result<seq<TestResult>, nat>
    decreases |pregraded|
  {
    if |pregraded| == 0 then Ok(current)
    else
      match DeleteEach(current, Reverse(RemovalIndices(testedSet, pregraded[0].paths)))
      case Err(i) => Err(i)
      case Ok(next) => Prune(next, testedSet, pregraded[1..])
  }

  /** The result list after the pre-graded step: the surviving results, then the pre-graded ones. */
  function WithPregraded(results: seq<TestResult>, pregraded: seq<TestResult>): Result<seq<TestResult>, nat>
  {
    match Prune(results, Flatten(results), pregraded)
    case Err(i) => Err(i)
    case Ok(kept) => Ok(kept + pregraded)
  }

  /** The `if pregraded_results:` block of `grade_notebook`: an out-of-range deletion is `Err` with its index. */
  method ApplyPregraded(results: seq<TestResult>, pregraded: seq<TestResult>) returns (out: Result<seq<TestResult>, nat>)
    ensures out == WithPregraded(results, pregraded)
  {
    var testedSet := Flatten(results);
    var current := results;
    for n := 0 to |pregraded|
      invariant Prune(results, testedSet, pregraded) == Prune(current, testedSet, pregraded[n..])
    {
      var r := pregraded[n];
      var removal: seq<nat> := [];
      for i := 0 to |testedSet|
        invariant removal == Positions(testedSet[..i], tested => CoveredBy(tested, r.paths))
      {
        PositionsSnoc(testedSet, i, tested => CoveredBy(tested, r.paths));
        if CoveredBy(testedSet[i], r.paths) {
          removal := removal + [i];
        }
      }
      assert testedSet[..|testedSet|] == testedSet;
      removal := Reverse(removal);
      ghost var before := current;
      for m := 0 to |removal|
        invariant DeleteEach(before, removal) == DeleteEach(current, removal[m..])
      {
        var i := removal[m];
        DeleteStep(current, removal, m);
        if i >= |current| {
          PruneErr(before, testedSet, pregraded, n, i);
          return Err(i);
        }
        current := current[..i] + current[i + 1..];
      }
      PruneOk(before, testedSet, pregraded, n, current);
    }
    return Ok(current + pregraded);
  }

  /** One deletion of the loop: it raises on an index past the end, and otherwise leaves the rest to do. */
  lemma DeleteStep<T>(s: seq<T>, indices: seq<nat>, m: nat)
    requires m < |indices|
    ensures var i := indices[m];
            DeleteEach(s, indices[m..]) == if i >= |s| then Err(i) else DeleteEach(s[..i] + s[i + 1..], indices[m + 1..])
  {
    assert indices[m..][1..] == indices[m + 1..];
  }

  /** The deletions of one pre-graded result succeed: pruning goes on from what they leave. */
  lemma PruneOk(current: seq<TestResult>, testedSet: seq<string>, pregraded: seq<TestResult>, n: nat, next: seq<TestResult>)
    requires n < |pregraded|
    requires DeleteEach(current, Reverse(RemovalIndices(testedSet, pregraded[n].paths))) == Ok(next)
    ensures Prune(current, testedSet, pregraded[n..]) == Prune(next, testedSet, pregraded[n + 1..])
  {
    assert pregraded[n..][0] == pregraded[n] && pregraded[n..][1..] == pregraded[n + 1..];
  }

  /** A deletion of one pre-graded result raises: pruning raises with it. */
  lemma PruneErr(current: seq<TestResult>, testedSet: seq<string>, pregraded: seq<TestResult>, n: nat, i: nat)
    requires n < |pregraded|
    requires DeleteEach(current, Reverse(RemovalIndices(testedSet, pregraded[n].paths))) == Err(i)
    ensures Prune(current, testedSet, pregraded[n..]) == Err(i)
  {
    assert pregraded[n..][0] == pregraded[n];
  }

  // ---------------------------------------------------------------------
  // Properties of the pre-graded step

  /** `s` without the entries at the indices in `gone`, the rest in order. */
  function Without<T>(s: seq<T>, gone: set<nat>): seq<T>
  {
    if |s| == 0 then [] else Without(s[..|s| - 1], gone) + (if |s| - 1 in gone then [] else [s[|s| - 1]])
  }

  /** The indices below `n` that are not in `gone`, ascending. */
  function KeptIndices(n: nat, gone: set<nat>): seq<nat>
  {
    if n == 0 then [] else KeptIndices(n - 1, gone) + (if n - 1 in gone then [] else [n - 1])
  }

  /** `Without` keeps exactly the entries whose indices are not in `gone`, in their original order. */
  lemma WithoutSpec<T>(s: seq<T>, gone: set<nat>)
    ensures var r, ix := Without(s, gone), KeptIndices(|s|, gone);
            && |r| == |ix|
            && (forall j :: 0 <= j < |ix| ==> ix[j] < |s| && r[j] == s[ix[j]])
            && (forall j, k :: 0 <= j < k < |ix| ==> ix[j] < ix[k])
            && (forall i :: 0 <= i < |s| ==> (i in ix <==> i !in gone))
  {
    KeptIndicesSpec(|s|, gone);
    WithoutUpTo(s, gone, |s|);
    assert s[..|s|] == s;
  }

  /** The kept indices below `n` increase and are exactly those not in `gone`. */
  lemma {:induction false} KeptIndicesSpec(n: nat, gone: set<nat>)
    ensures var ix := KeptIndices(n, gone);
            && (forall j :: 0 <= j < |ix| ==> ix[j] < n)
            && (forall j, k :: 0 <= j < k < |ix| ==> ix[j] < ix[k])
            && (forall i :: 0 <= i < n ==> (i in ix <==> i !in gone))
  {
    if n > 0 {
      KeptIndicesSpec(n - 1, gone);
    }
  }

  /** The survivors among the first `n` entries are the entries at the kept indices below `n`. */
  lemma {:induction false} WithoutUpTo<T>(s: seq<T>, gone: set<nat>, n: nat)
    requires n <= |s|
    ensures var r, ix := Without(s[..n], gone), KeptIndices(n, gone);
            && |r| == |ix|
            && (forall j :: 0 <= j < |ix| ==> ix[j] < |s| && r[j] == s[ix[j]])
  {
    if n > 0 {
      WithoutUpTo(s, gone, n - 1);
      assert s[..n][..n - 1] == s[..n - 1];
    }
  }

  lemma {:induction false} WithoutAppend<T>(a: seq<T>, b: seq<T>, gone: set<nat>)
    requires forall i :: i in gone ==> i < |a|
    ensures Without(a + b, gone) == Without(a, gone) + b
    decreases |b|
  {
    if |b| > 0 {
      var n := |b| - 1;
      var ab := a + b;
      assert ab[..|ab| - 1] == a + b[..n];
      assert ab[|ab| - 1] == b[n] && |ab| - 1 !in gone;
      WithoutAppend(a, b[..n], gone);
      assert Without(ab, gone) == Without(a, gone) + b[..n] + [b[n]];
      assert b == b[..n] + [b[n]];
    } else {
      assert a + b == a;
    }
  }

  lemma {:induction false} WithoutPrefix<T>(s: seq<T>, i: nat, gone: set<nat>)
    requires i <= |s|
    requires forall k :: k in gone ==> k < i
    ensures Without(s, gone) == Without(s[..i], gone) + s[i..]
  {
    assert s == s[..i] + s[i..];
    WithoutAppend(s[..i], s[i..], gone);
  }

  /**
   Deleting at strictly decreasing indices deletes the entries at all of
   them, and fails exactly when the first (largest) is out of range.
   */
  lemma {:induction false} DeleteDescending<T>(s: seq<T>, indices: seq<nat>, gone: set<nat>)
    requires forall a, b :: 0 <= a < b < |indices| ==> indices[a] > indices[b]
    requires forall k :: k in gone <==> k in indices
    ensures DeleteEach(s, indices) == if |indices| > 0 && indices[0] >= |s| then Err(indices[0]) else Ok(Without(s, gone))
  {
    if |indices| == 0 {
      WithoutNothing(s, gone);
    } else if indices[0] < |s| {
      var i := indices[0];
      var rest := indices[1..];
      var next := s[..i] + s[i + 1..];
      DescendingTail(indices, gone);
      DeleteDescending(next, rest, gone - {i});
      if |rest| > 0 {
        assert rest[0] in rest;
      }
      DeletedSurvivors(s, i, gone);
      assert DeleteEach(s, indices) == DeleteEach(next, rest);
    }
  }

  /** After the first of strictly decreasing indices, the rest are below it and are the others. */
  lemma DescendingTail(indices: seq<nat>, gone: set<nat>)
    requires |indices| > 0
    requires forall a, b :: 0 <= a < b < |indices| ==> indices[a] > indices[b]
    requires forall k :: k in gone <==> k in indices
    ensures forall k :: k in gone ==> k <= indices[0]
    ensures forall k :: k in gone - {indices[0]} <==> k in indices[1..]
  {
    var rest := indices[1..];
    forall k | k in gone ensures k <= indices[0] {
      var x :| 0 <= x < |indices| && indices[x] == k;
    }
    forall k ensures k in gone - {indices[0]} <==> k in rest {
      if k in gone && k != indices[0] {
        var x :| 0 <= x < |indices| && indices[x] == k;
        assert x > 0 && rest[x - 1] == k;
      }
      if k in rest {
        var x :| 0 <= x < |rest| && rest[x] == k;
        assert indices[x + 1] == k;
      }
    }
  }

  /** Deleting the largest index of `gone` and then the others keeps the same entries as deleting all at once. */
  lemma DeletedSurvivors<T>(s: seq<T>, i: nat, gone: set<nat>)
    requires i < |s| && i in gone && forall k :: k in gone ==> k <= i
    ensures Without(s[..i] + s[i + 1..], gone - {i}) == Without(s, gone)
  {
    var next := s[..i] + s[i + 1..];
    var restGone := gone - {i};
    // the survivors of `next` are those of `s[..i]` followed by `s[i + 1..]` ...
    WithoutPrefix(next, i, restGone);
    assert next[..i] == s[..i] && next[i..] == s[i + 1..];
    // ... and so are the survivors of `s`, since `i` is deleted and nothing above it is
    WithoutPrefix(s, i + 1, gone);
    assert s[..i + 1][..i] == s[..i];
    assert Without(s[..i + 1], gone) == Without(s[..i], gone);
    WithoutSame(s[..i], gone, restGone);
  }

  lemma {:induction false} WithoutNothing<T>(s: seq<T>, gone: set<nat>)
    requires forall k :: k !in gone
    ensures Without(s, gone) == s
  {
    if |s| > 0 {
      WithoutNothing(s[..|s| - 1], gone);
    }
  }

  lemma {:induction false} WithoutSame<T>(s: seq<T>, a: set<nat>, b: set<nat>)
    requires forall k :: k < |s| ==> (k in a <==> k in b)
    ensures Without(s, a) == Without(s, b)
  {
    if |s| > 0 {
      WithoutSame(s[..|s| - 1], a, b);
    }
  }

  /** The positions of `testedSet` whose path some path in `paths` covers. */
  function CoveredSet(testedSet: seq<string>, paths: seq<string>): set<nat>
  {
    set i | 0 <= i < |testedSet| && CoveredBy(testedSet[i], paths)
  }

  /** The reversed removal indices run strictly downwards over exactly the covered positions. */
  lemma RemovalOrder(testedSet: seq<string>, paths: seq<string>)
    ensures var rev := Reverse(RemovalIndices(testedSet, paths));
            && (forall a, b :: 0 <= a < b < |rev| ==> rev[a] > rev[b])
            && (forall i :: i in rev <==> i in CoveredSet(testedSet, paths))
  {
    var keep := tested => CoveredBy(tested, paths);
    SelectPositions(testedSet, keep);
    var ix := Positions(testedSet, keep);
    ReverseOfAscending(ix);
    forall i ensures i in ix <==> i in CoveredSet(testedSet, paths) {
      if i in ix {
        var j :| 0 <= j < |ix| && ix[j] == i;
        assert i < |testedSet|;
      }
    }
  }

  /** Reversing strictly increasing indices gives strictly decreasing ones, and the same indices. */
  lemma ReverseOfAscending(ix: seq<nat>)
    requires forall j, k :: 0 <= j < k < |ix| ==> ix[j] < ix[k]
    ensures var rev := Reverse(ix);
            && (forall a, b :: 0 <= a < b < |rev| ==> rev[a] > rev[b])
            && (forall i :: i in rev <==> i in ix)
  {
    var rev := Reverse(ix);
    forall i ensures i in rev <==> i in ix {
      if i in ix {
        var j :| 0 <= j < |ix| && ix[j] == i;
        assert rev[|ix| - 1 - j] == i;
      }
      if i in rev {
        var k :| 0 <= k < |rev| && rev[k] == i;
        assert rev[k] == ix[|ix| - 1 - k];
      }
    }
    forall a, b | 0 <= a < b < |rev| ensures rev[a] > rev[b] {
      assert rev[a] == ix[|ix| - 1 - a] && rev[b] == ix[|ix| - 1 - b];
    }
  }


  /**
   One pre-graded result deletes, from the current list, the entries at
   exactly the positions of `testedSet` its paths cover, and fails when one
   of those positions is past the end of the current list.
   */
  lemma PruneStep(current: seq<TestResult>, testedSet: seq<string>, paths: seq<string>)
    ensures var out := DeleteEach(current, Reverse(RemovalIndices(testedSet, paths)));
            && (out.Err? <==> exists i :: i in CoveredSet(testedSet, paths) && i >= |current|)
            && (out.Ok? ==> out.value == Without(current, CoveredSet(testedSet, paths)))
  {
    var rev := Reverse(RemovalIndices(testedSet, paths));
    var gone := CoveredSet(testedSet, paths);
    RemovalOrder(testedSet, paths);
    DeleteDescending(current, rev, gone);
    FirstIsLargest(rev, gone, |current|);
  }

  /** Of strictly decreasing indices, the first reaches `n` exactly when one of them does. */
  lemma FirstIsLargest(rev: seq<nat>, gone: set<nat>, n: nat)
    requires forall a, b :: 0 <= a < b < |rev| ==> rev[a] > rev[b]
    requires forall i :: i in gone <==> i in rev
    ensures (|rev| > 0 && rev[0] >= n) <==> exists i :: i in gone && i >= n
  {
    if |rev| > 0 && rev[0] >= n {
      assert rev[0] in rev;
    }
    if exists i :: i in gone && i >= n {
      var i :| i in gone && i >= n;
      var k :| 0 <= k < |rev| && rev[k] == i;
      assert rev[0] >= rev[k];
    }
  }

  /** The pre-graded results always end the list, in their given order. */
  lemma PregradedSuffix(results: seq<TestResult>, pregraded: seq<TestResult>)
    ensures var out := WithPregraded(results, pregraded);
            out.Ok? ==> |out.value| >= |pregraded| && out.value[|out.value| - |pregraded|..] == pregraded
  {
    match Prune(results, Flatten(results), pregraded)
    case Err(_) =>
    case Ok(kept) =>
      assert (kept + pregraded)[|kept|..] == pregraded;
  }

  // ---------------------------------------------------------------------
  // The pre-graded step as intended

  /** Some path of `r` is covered by some path of some pre-graded result. */
  predicate Superseded(r: TestResult, pregraded: seq<TestResult>)
  {
    exists j, k :: 0 <= j < |r.paths| && 0 <= k < |pregraded| && CoveredBy(r.paths[j], pregraded[k].paths)
  }

  /** Every result a pre-graded result supersedes is dropped, the others kept in order, the pre-graded ones appended. */
  function WithPregradedIntended(results: seq<TestResult>, pregraded: seq<TestResult>): seq<TestResult>
  {
    Select(results, r => !Superseded(r, pregraded)) + pregraded
  }

  /** The intended step keeps exactly the results no pre-graded result supersedes, in order, and ends with the pre-graded ones. */
  lemma IntendedSpec(results: seq<TestResult>, pregraded: seq<TestResult>)
    ensures var out, n := WithPregradedIntended(results, pregraded), |WithPregradedIntended(results, pregraded)| - |pregraded|;
            var ix := Positions(results, r => !Superseded(r, pregraded));
            && n == |ix| && out[n..] == pregraded
            && (forall j :: 0 <= j < n ==> ix[j] < |results| && out[j] == results[ix[j]])
            && (forall j, k :: 0 <= j < k < n ==> ix[j] < ix[k])
            && (forall i :: 0 <= i < |results| ==> (i in ix <==> !Superseded(results[i], pregraded)))
  {
    var keep := r => !Superseded(r, pregraded);
    SelectPositions(results, keep);
    var kept := Select(results, keep);
    assert (kept + pregraded)[|kept|..] == pregraded;
    assert forall j :: 0 <= j < |kept| ==> (kept + pregraded)[j] == kept[j];
  }

  /** With one path per result its positions in the flattened list are its positions in the result list. */
  lemma {:induction false} FlattenSingle(results: seq<TestResult>)
    requires forall i :: 0 <= i < |results| ==> |results[i].paths| == 1
    ensures |Flatten(results)| == |results|
    ensures forall i :: 0 <= i < |results| ==> Flatten(results)[i] == results[i].paths[0]
  {
    if |results| > 0 {
      var init := results[..|results| - 1];
      FlattenSingle(init);
      forall i | 0 <= i < |results| ensures Flatten(results)[i] == results[i].paths[0] {
        if i < |init| {
          assert init[i] == results[i];
        }
      }
    }
  }

  /** Dropping the entries at the positions in `gone` keeps those satisfying `keep` when these are the others. */
  lemma {:induction false} WithoutIsSelect<T>(s: seq<T>, keep: T -> bool, gone: set<nat>)
    requires forall i :: 0 <= i < |s| ==> (i in gone <==> !keep(s[i]))
    ensures Without(s, gone) == Select(s, keep)
  {
    if |s| > 0 {
      var n := |s| - 1;
      var init := s[..n];
      forall i | 0 <= i < |init| ensures i in gone <==> !keep(init[i]) {
        assert init[i] == s[i];
      }
      WithoutIsSelect(init, keep, gone);
      assert s[..n + 1] == s;
      SelectSnoc(s, n, keep);
    }
  }

  /** `any` over a single path is the one substring test. */
  lemma CoveredBySingle(tested: string, path: string)
    ensures CoveredBy(tested, [path]) <==> Contains(path, tested)
  {
    if Contains(path, tested) {
      assert [path][0] == path;
    }
  }

  /**
   When every result has exactly one path and there is one pre-graded
   result, the code as written does what was intended.
   */
  lemma AsWrittenMatchesIntended(results: seq<TestResult>, pg: TestResult)
    requires forall i :: 0 <= i < |results| ==> |results[i].paths| == 1
    ensures WithPregraded(results, [pg]) == Ok(WithPregradedIntended(results, [pg]))
  {
    var testedSet := Flatten(results);
    FlattenSingle(results);
    var gone := CoveredSet(testedSet, pg.paths);
    PruneStep(results, testedSet, pg.paths);
    assert [pg][1..] == [];
    assert [pg][0] == pg;
    var keep := r => !Superseded(r, [pg]);
    forall i | 0 <= i < |results| ensures i in gone <==> !keep(results[i]) {
      assert testedSet[i] == results[i].paths[0];
      if !keep(results[i]) {
        var j, k :| 0 <= j < |results[i].paths| && 0 <= k < 1 && CoveredBy(results[i].paths[j], [pg][k].paths);
        assert j == 0 && k == 0;
      }
      if i in gone {
        assert CoveredBy(results[i].paths[0], [pg][0].paths);
      }
    }
    WithoutIsSelect(results, keep, gone);
    assert Prune(results, testedSet, [pg]) == Ok(Without(results, gone));
  }

  /** Two pre-graded results: the second deletes by an index that the first deletion has shifted. */
  lemma PregradedAsWrittenStale()
    ensures var a, b, c := TestResult(["a"], 1.0, [], []), TestResult(["b"], 1.0, [], []), TestResult(["c"], 1.0, [], []);
            var p, q := TestResult(["a"], 0.5, [], []), TestResult(["b"], 0.5, [], []);
            WithPregraded([a, b, c], [p, q]) == Ok([b, p, q]) && WithPregradedIntended([a, b, c], [p, q]) == [c, p, q]
  {
    var a, b, c := TestResult(["a"], 1.0, [], []), TestResult(["b"], 1.0, [], []), TestResult(["c"], 1.0, [], []);
    var p, q := TestResult(["a"], 0.5, [], []), TestResult(["b"], 0.5, [], []);
    var results := [a, b, c];
    StaleDeletions(a, b, c, p, q);
    assert [p, q][1..] == [q] && [q][1..] == [];
    assert Prune([b], Flatten(results), []) == Ok([b]);
    assert Prune([b, c], Flatten(results), [q]) == Ok([b]);
    assert [p, q][0] == p;
    assert Prune(results, Flatten(results), [p, q]) == Ok([b]);
    assert WithPregraded(results, [p, q]) == Ok([b] + [p, q]);
    assert [b] + [p, q] == [b, p, q];
    StaleIntended(a, b, c, p, q);
    assert WithPregradedIntended([a, b, c], [p, q]) == [c, p, q];
  }

  /** The deletions of `PregradedAsWrittenStale`: position 0 of `[a, b, c]`, then position 1 of `[b, c]`. */
  lemma StaleDeletions(a: TestResult, b: TestResult, c: TestResult, p: TestResult, q: TestResult)
    requires a.paths == p.paths == ["a"] && b.paths == q.paths == ["b"] && c.paths == ["c"]
    ensures DeleteEach([a, b, c], Reverse(RemovalIndices(Flatten([a, b, c]), p.paths))) == Ok([b, c])
    ensures DeleteEach([b, c], Reverse(RemovalIndices(Flatten([a, b, c]), q.paths))) == Ok([b])
  {
    var results := [a, b, c];
    var testedSet := Flatten(results);
    FlattenSingle(results);
    assert testedSet == ["a", "b", "c"];
    StaleCovered(testedSet);
    StaleFirst(results, testedSet, p.paths);
    assert results[1..] == [b, c];
    StaleSecond([b, c], testedSet, q.paths);
    assert [b, c][..1] == [b];
  }

  /** In `["a", "b", "c"]`, path `a` covers position 0 only and path `b` position 1 only. */
  lemma StaleCovered(testedSet: seq<string>)
    requires testedSet == ["a", "b", "c"]
    ensures CoveredSet(testedSet, ["a"]) == {0} && CoveredSet(testedSet, ["b"]) == {1}
  {
    Letters();
    CoveredBySingle("a", "a");
    CoveredBySingle("b", "a");
    CoveredBySingle("c", "a");
    CoveredBySingle("a", "b");
    CoveredBySingle("b", "b");
    CoveredBySingle("c", "b");
  }

  lemma StaleFirst(results: seq<TestResult>, testedSet: seq<string>, paths: seq<string>)
    requires |results| == 3 && CoveredSet(testedSet, paths) == {0}
    ensures DeleteEach(results, Reverse(RemovalIndices(testedSet, paths))) == Ok(results[1..])
  {
    var gone := CoveredSet(testedSet, paths);
    PruneStep(results, testedSet, paths);
    assert !(exists i :: i in gone && i >= |results|);
    assert Without(results[..1], gone) == [] by {
      assert results[..1][..0] == [];
      assert 0 in gone;
    }
    WithoutPrefix(results, 1, gone);
    assert [] + results[1..] == results[1..];
  }

  lemma StaleSecond(results: seq<TestResult>, testedSet: seq<string>, paths: seq<string>)
    requires |results| == 2 && CoveredSet(testedSet, paths) == {1}
    ensures DeleteEach(results, Reverse(RemovalIndices(testedSet, paths))) == Ok(results[..1])
  {
    var gone := CoveredSet(testedSet, paths);
    PruneStep(results, testedSet, paths);
    assert !(exists i :: i in gone && i >= |results|);
    var head := results[..1];
    assert Without(head, gone) == head by {
      assert head[..0] == [] && 0 !in gone;
      assert Without(head, gone) == [] + [head[0]];
      assert head == [head[0]];
    }
    assert Without(results, gone) == Without(head, gone) + [] by {
      assert results[..1] == head && 1 in gone;
    }
    assert Without(head, gone) + [] == head;
  }


  /** As intended, `a` and `b` are superseded in `PregradedAsWrittenStale` and `c` is kept. */
  lemma StaleIntended(a: TestResult, b: TestResult, c: TestResult, p: TestResult, q: TestResult)
    requires a.paths == p.paths == ["a"] && b.paths == q.paths == ["b"] && c.paths == ["c"]
    ensures WithPregradedIntended([a, b, c], [p, q]) == [c, p, q]
  {
    Letters();
    CoveredBySingle("a", "a");
    CoveredBySingle("b", "b");
    CoveredBySingle("c", "a");
    CoveredBySingle("c", "b");
    var keep := r => !Superseded(r, [p, q]);
    assert !keep(a) by {
      assert CoveredBy(a.paths[0], [p, q][0].paths);
    }
    assert !keep(b) by {
      assert CoveredBy(b.paths[0], [p, q][1].paths);
    }
    assert keep(c) by {
      forall j, k | 0 <= j < |c.paths| && 0 <= k < 2 ensures !CoveredBy(c.paths[j], [p, q][k].paths) {
        assert c.paths[j] == "c";
      }
    }
    assert Select([a, b, c], keep) == [c] by {
      assert [a, b, c][1..] == [b, c] && [b, c][1..] == [c] && [c][1..] == [];
      assert Select([c], keep) == [c];
      assert Select([b, c], keep) == [c];
    }
  }

  /** A result with two paths shifts the flattened positions past the end of the result list. */
  lemma PregradedAsWrittenOutOfRange()
    ensures var a, b := TestResult(["a1", "a2"], 1.0, [], []), TestResult(["b"], 1.0, [], []);
            var p := TestResult(["b"], 0.5, [], []);
            && WithPregraded([a, b], [p]).Err?
            && WithPregradedIntended([a, b], [p]) == [a, p]
  {
    var a, b := TestResult(["a1", "a2"], 1.0, [], []), TestResult(["b"], 1.0, [], []);
    var p := TestResult(["b"], 0.5, [], []);
    OutOfRangeDeletion(a, b, p);
    assert [p][0] == p;
    OutOfRangeIntended(a, b, p);
  }

  lemma OutOfRangeDeletion(a: TestResult, b: TestResult, p: TestResult)
    requires a.paths == ["a1", "a2"] && b.paths == p.paths == ["b"]
    ensures DeleteEach([a, b], Reverse(RemovalIndices(Flatten([a, b]), p.paths))).Err?
  {
    var results := [a, b];
    assert Flatten(results) == ["a1", "a2", "b"] by {
      assert results[..1] == [a] && [a][..0] == [];
      assert Flatten([a]) == ["a1", "a2"];
    }
    Letters();
    CoveredBySingle("b", "b");
    assert Flatten(results)[2] == "b";
    assert 2 in CoveredSet(Flatten(results), p.paths);
    PruneStep(results, Flatten(results), p.paths);
  }

  lemma OutOfRangeIntended(a: TestResult, b: TestResult, p: TestResult)
    requires a.paths == ["a1", "a2"] && b.paths == p.paths == ["b"]
    ensures WithPregradedIntended([a, b], [p]) == [a, p]
  {
    Letters();
    CoveredBySingle("b", "b");
    CoveredBySingle("a1", "b");
    CoveredBySingle("a2", "b");
    var keep := r => !Superseded(r, [p]);
    assert keep(a) by {
      forall j, k | 0 <= j < |a.paths| && 0 <= k < 1 ensures !CoveredBy(a.paths[j], [p][k].paths) {
        assert a.paths[j] == "a1" || a.paths[j] == "a2";
      }
    }
    assert !keep(b) by {
      assert CoveredBy(b.paths[0], [p][0].paths);
    }
    assert Select([a, b], keep) == [a] by {
      assert [a, b][1..] == [b] && [b][1..] == [];
      assert Select([b], keep) == [];
    }
  }

  /** The substring facts about the one-letter paths used above. */
  lemma Letters()
    ensures Contains("a", "a") && Contains("b", "b")
    ensures !Contains("a", "b") && !Contains("a", "c") && !Contains("b", "a") && !Contains("b", "c")
    ensures !Contains("b", "a1") && !Contains("b", "a2")
  {
    assert OccursAt("a", "a", 0) && OccursAt("b", "b", 0);
  }
}
