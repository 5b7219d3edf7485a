/**
 The score mapping: every test of every result sets its question's
 entry (a later test with the same key replaces the earlier entry), every
 failed test attaches its hint, and the running sums become the `"total"`
 and `"possible"` keys. A failed-test tuple too short to index raises
 `IndexError`, which skips the rest of that one result.
 */
module ScoreMapping {
  import opened Wrappers
  import opened Results

  /** `r.grade * test.value`, the score a test earns. */
  function Weighted(grade: real, value: real): real
  {
    grade * value
  }

  /** The entry a test sets: its weighted score and its point value, without hint. */
  function TestEntry(grade: real, t: TestCase): Entry
  {
    Entry(Some(Weighted(grade, t.value)), Some(t.value), None, None)
  }

  /** The mapping after the `for test in r.tests` loop. */
  function RecordTests(m: map<string, Entry>, grade: real, tests: seq<TestCase>): map<string, Entry>
  {
    if |tests| == 0 then m
    else
      var t := tests[|tests| - 1];
      RecordTests(m, grade, tests[..|tests| - 1])[Key(t.name) := TestEntry(grade, t)]
  }

  /** One failed test: the hint goes onto an existing entry, or into a new hint-only entry. */
  function RecordFailure(m: map<string, Entry>, test: TestCase, hint: Hint): map<string, Entry>
  {
    var k := Key(test.name);
    if k in m then m[k := m[k].(hint := Some(hint), hidden := Some(hint.hidden))]
    else m[k := Entry(None, None, Some(hint), Some(hint.hidden))]
  }

  /** The mapping after the failed tests in `fails`, a malformed one among them having no effect. */
  function RecordFailures(m: map<string, Entry>, fails: seq<FailedTest>): map<string, Entry>
  {
    if |fails| == 0 then m
    else
      var prev := RecordFailures(m, fails[..|fails| - 1]);
      match fails[|fails| - 1]
      case Malformed => prev
      case FailedTest(t, h) => RecordFailure(prev, t, h)
  }

  /** How many failed tests are handled before the first malformed one raises. */
  function WellFormedRun(fails: seq<FailedTest>): (n: nat)
    ensures n <= |fails|
    ensures forall j :: 0 <= j < n ==> fails[j].FailedTest?
    ensures n < |fails| ==> fails[n].Malformed?
  {
    if |fails| == 0 || fails[0].Malformed? then 0 else 1 + WellFormedRun(fails[1..])
  }

  /** The body of the `try` for one result. */
  function RecordResult(m: map<string, Entry>, r: TestResult): map<string, Entry>
  {
    RecordFailures(RecordTests(m, r.grade, r.tests), r.failedTests[..WellFormedRun(r.failedTests)])
  }

  /** The question entries after all results, in order. */
  function RecordAll(results: seq<TestResult>): map<string, Entry>
  {
    if |results| == 0 then map[] else RecordResult(RecordAll(results[..|results| - 1]), results[|results| - 1])
  }

  /** The sum of `grade * value` over the tests. */
  function TestsEarned(grade: real, tests: seq<TestCase>): real
  {
    if |tests| == 0 then 0.0 else TestsEarned(grade, tests[..|tests| - 1]) + Weighted(grade, tests[|tests| - 1].value)
  }

  /** The sum of `value` over the tests. */
  function TestsPossible(tests: seq<TestCase>): real
  {
    if |tests| == 0 then 0.0 else TestsPossible(tests[..|tests| - 1]) + tests[|tests| - 1].value
  }

  /** `total_score`: the weighted score of every test of every result. */
  function Earned(results: seq<TestResult>): real
  {
    if |results| == 0 then 0.0
    else Earned(results[..|results| - 1]) + TestsEarned(results[|results| - 1].grade, results[|results| - 1].tests)
  }

  /** `points_possible`: the value of every test of every result. */
  function Possible(results: seq<TestResult>): real
  {
    if |results| == 0 then 0.0 else Possible(results[..|results| - 1]) + TestsPossible(results[|results| - 1].tests)
  }

  /** The returned mapping: the question entries, then `"total"` and `"possible"` written over whatever they held. */
  function Scores(results: seq<TestResult>): map<string, ScoreValue>
  {
    var m := RecordAll(results);
    (map k | k in m :: Question(m[k]))["total" := Points(Earned(results))]["possible" := Points(Possible(results))]
  }

  /** The score mapping loop of `grade_notebook`. */
  method ComputeScores(results: seq<TestResult>) returns (scores: map<string, ScoreValue>)
    ensures scores == Scores(results)
    ensures scores["total"] == Points(Earned(results)) && scores["possible"] == Points(Possible(results))
  {
    var mapping: map<string, Entry> := map[];
    var pointsPossible, totalScore := 0.0, 0.0;
    for i := 0 to |results|
      invariant mapping == RecordAll(results[..i])
      invariant totalScore == Earned(results[..i]) && pointsPossible == Possible(results[..i])
    {
      var r := results[i];
      mapping, totalScore, pointsPossible := ScoreTests(mapping, r.grade, r.tests, totalScore, pointsPossible);
      mapping := ScoreFailures(mapping, r.failedTests);
      assert results[..i + 1][..i] == results[..i];
    }
    WholePrefix(results);
    scores := map k | k in mapping :: Question(mapping[k]);
    scores := scores["total" := Points(totalScore)];
    scores := scores["possible" := Points(pointsPossible)];
  }

  /** The `for test in r.tests` loop: each test sets its entry and adds to both running sums. */
  method ScoreTests(m: map<string, Entry>, grade: real, tests: seq<TestCase>, earned: real, possible: real)
    returns (mapping: map<string, Entry>, totalScore: real, pointsPossible: real)
    ensures mapping == RecordTests(m, grade, tests)
    ensures totalScore == earned + TestsEarned(grade, tests) && pointsPossible == possible + TestsPossible(tests)
  {
    mapping, totalScore, pointsPossible := m, earned, possible;
    for j := 0 to |tests|
      invariant mapping == RecordTests(m, grade, tests[..j])
      invariant totalScore == earned + TestsEarned(grade, tests[..j])
      invariant pointsPossible == possible + TestsPossible(tests[..j])
    {
      var test := tests[j];
      assert tests[..j + 1][..j] == tests[..j];
      mapping := mapping[Key(test.name) := TestEntry(grade, test)];
      totalScore := totalScore + Weighted(grade, test.value);
      pointsPossible := pointsPossible + test.value;
    }
    assert tests[..|tests|] == tests;
  }

  /** The `for fail in r.failed_tests` loop, which a malformed tuple ends by raising. */
  method ScoreFailures(m: map<string, Entry>, fails: seq<FailedTest>) returns (mapping: map<string, Entry>)
    ensures mapping == RecordFailures(m, fails[..WellFormedRun(fails)])
  {
    mapping := m;
    var j := 0;
    while j < |fails|
      invariant j <= |fails|
      invariant forall k :: 0 <= k < j ==> fails[k].FailedTest?
      invariant mapping == RecordFailures(m, fails[..j])
    {
      if fails[j].Malformed? {
        break;
      }
      var test, hint := fails[j].test, fails[j].hint;
      var name := Key(test.name);
      if name in mapping {
        mapping := mapping[name := mapping[name].(hint := Some(hint), hidden := Some(hint.hidden))];
      } else {
        mapping := mapping[name := Entry(None, None, Some(hint), Some(hint.hidden))];
      }
      assert fails[..j + 1][..j] == fails[..j];
      j := j + 1;
    }
    WellFormedRunIs(fails, j);
  }

  lemma WholePrefix(results: seq<TestResult>)
    ensures RecordAll(results[..|results|]) == RecordAll(results)
    ensures Earned(results[..|results|]) == Earned(results) && Possible(results[..|results|]) == Possible(results)
  {
    assert results[..|results|] == results;
  }

  // ---------------------------------------------------------------------
  // Properties of the score mapping

  /** The failed tests handled are exactly those before the first malformed one. */
  lemma {:induction false} WellFormedRunIs(fails: seq<FailedTest>, n: nat)
    requires n <= |fails| && forall j :: 0 <= j < n ==> fails[j].FailedTest?
    requires n < |fails| ==> fails[n].Malformed?
    ensures WellFormedRun(fails) == n
  {
    if n > 0 {
      WellFormedRunIs(fails[1..], n - 1);
    }
  }

  /** A malformed failed test ends the handling of its result: nothing after it has any effect. */
  lemma MalformedSkipsRest(m: map<string, Entry>, r: TestResult, pre: seq<FailedTest>, post: seq<FailedTest>)
    requires r.failedTests == pre + [Malformed] + post
    ensures RecordResult(m, r) == RecordResult(m, r.(failedTests := pre))
  {
    var n := WellFormedRun(pre);
    WellFormedRunIs(pre + [Malformed] + post, n);
    assert (pre + [Malformed] + post)[..n] == pre[..n];
  }

  /** The last test with a given key decides that key's entry. */
  lemma {:induction false} LastTestWins(m: map<string, Entry>, grade: real, tests: seq<TestCase>, j: nat)
    requires j < |tests|
    requires forall k :: j < k < |tests| ==> Key(tests[k].name) != Key(tests[j].name)
    ensures var r := RecordTests(m, grade, tests);
            Key(tests[j].name) in r && r[Key(tests[j].name)] == TestEntry(grade, tests[j])
  {
    var n := |tests| - 1;
    if j < n {
      var init := tests[..n];
      assert init[j] == tests[j];
      forall k | j < k < |init| ensures Key(init[k].name) != Key(init[j].name) {
        assert init[k] == tests[k];
      }
      LastTestWins(m, grade, init, j);
    }
  }

  /** A key no test names keeps its entry, or its absence. */
  lemma {:induction false} TestsLeaveOthers(m: map<string, Entry>, grade: real, tests: seq<TestCase>, key: string)
    requires forall k :: 0 <= k < |tests| ==> Key(tests[k].name) != key
    ensures var r := RecordTests(m, grade, tests);
            (key in r <==> key in m) && (key in m ==> r[key] == m[key])
  {
    if |tests| > 0 {
      var init := tests[..|tests| - 1];
      forall k | 0 <= k < |init| ensures Key(init[k].name) != key {
        assert init[k] == tests[k];
      }
      TestsLeaveOthers(m, grade, init, key);
    }
  }

  /**
   Failed tests never touch a score: an entry that existed keeps its score
   and possible points, and every new entry has neither.
   */
  lemma {:induction false} FailuresKeepScores(m: map<string, Entry>, fails: seq<FailedTest>, key: string)
    ensures var r := RecordFailures(m, fails);
            && (key in m ==> key in r)
            && (key in r ==> r[key].score == (if key in m then m[key].score else None))
            && (key in r ==> r[key].possible == (if key in m then m[key].possible else None))
  {
    if |fails| > 0 {
      FailuresKeepScores(m, fails[..|fails| - 1], key);
    }
  }

  /** The last failed test with a given key decides that key's hint and hidden flag. */
  lemma {:induction false} LastFailureHint(m: map<string, Entry>, fails: seq<FailedTest>, j: nat)
    requires j < |fails| && fails[j].FailedTest?
    requires forall k :: j < k < |fails| && fails[k].FailedTest? ==> Key(fails[k].test.name) != Key(fails[j].test.name)
    ensures var r, key := RecordFailures(m, fails), Key(fails[j].test.name);
            key in r && r[key].hint == Some(fails[j].hint) && r[key].hidden == Some(fails[j].hint.hidden)
  {
    var n := |fails| - 1;
    if j < n {
      var init := fails[..n];
      assert init[j] == fails[j];
      forall k | j < k < |init| && init[k].FailedTest? ensures Key(init[k].test.name) != Key(init[j].test.name) {
        assert init[k] == fails[k];
      }
      LastFailureHint(m, init, j);
    }
  }

  /**
   A result with a test for a key sets that key's score and possible points
   from its last such test, whatever earlier results recorded there.
   */
  lemma LaterResultOverwrites(m: map<string, Entry>, r: TestResult, j: nat)
    requires j < |r.tests|
    requires forall k :: j < k < |r.tests| ==> Key(r.tests[k].name) != Key(r.tests[j].name)
    ensures var out, key := RecordResult(m, r), Key(r.tests[j].name);
            key in out && out[key].score == Some(Weighted(r.grade, r.tests[j].value)) && out[key].possible == Some(r.tests[j].value)
  {
    var afterTests := RecordTests(m, r.grade, r.tests);
    var key := Key(r.tests[j].name);
    LastTestWins(m, r.grade, r.tests, j);
    assert afterTests[key] == TestEntry(r.grade, r.tests[j]);
    var handled := r.failedTests[..WellFormedRun(r.failedTests)];
    FailuresKeepScores(afterTests, handled, key);
    assert RecordResult(m, r) == RecordFailures(afterTests, handled);
  }

  /** A test or a handled failed test of the result is keyed `key`. */
  predicate Visits(r: TestResult, key: string)
  {
    || (exists j :: 0 <= j < |r.tests| && Key(r.tests[j].name) == key)
    || (exists j :: 0 <= j < WellFormedRun(r.failedTests) && Key(r.failedTests[j].test.name) == key)
  }

  lemma TestsKeys(m: map<string, Entry>, grade: real, tests: seq<TestCase>, key: string)
    ensures key in RecordTests(m, grade, tests) <==> key in m || exists j :: 0 <= j < |tests| && Key(tests[j].name) == key
  {
    TestsKeysUpTo(m, grade, tests, key, |tests|);
    assert tests[..|tests|] == tests;
  }

  lemma {:induction false} TestsKeysUpTo(m: map<string, Entry>, grade: real, tests: seq<TestCase>, key: string, n: nat)
    requires n <= |tests|
    ensures key in RecordTests(m, grade, tests[..n]) <==> key in m || exists j :: 0 <= j < n && Key(tests[j].name) == key
  {
    if n > 0 {
      TestsKeysUpTo(m, grade, tests, key, n - 1);
      assert tests[..n][..n - 1] == tests[..n - 1];
    }
  }

  lemma FailureKeys(m: map<string, Entry>, test: TestCase, hint: Hint, key: string)
    ensures key in RecordFailure(m, test, hint) <==> key in m || key == Key(test.name)
  {
  }

  lemma FailuresKeys(m: map<string, Entry>, fails: seq<FailedTest>, key: string)
    requires forall j :: 0 <= j < |fails| ==> fails[j].FailedTest?
    ensures key in RecordFailures(m, fails) <==> key in m || exists j :: 0 <= j < |fails| && Key(fails[j].test.name) == key
  {
    FailuresKeysUpTo(m, fails, key, |fails|);
    assert fails[..|fails|] == fails;
  }

  lemma {:induction false} FailuresKeysUpTo(m: map<string, Entry>, fails: seq<FailedTest>, key: string, n: nat)
    requires n <= |fails| && forall j :: 0 <= j < |fails| ==> fails[j].FailedTest?
    ensures key in RecordFailures(m, fails[..n]) <==> key in m || exists j :: 0 <= j < n && Key(fails[j].test.name) == key
  {
    if n > 0 {
      var last := fails[n - 1];
      FailuresKeysUpTo(m, fails, key, n - 1);
      assert fails[..n][..n - 1] == fails[..n - 1];
      assert RecordFailures(m, fails[..n]) == RecordFailure(RecordFailures(m, fails[..n - 1]), last.test, last.hint);
      FailureKeys(RecordFailures(m, fails[..n - 1]), last.test, last.hint, key);
    }
  }

  lemma ResultKeys(m: map<string, Entry>, r: TestResult, key: string)
    ensures key in RecordResult(m, r) <==> key in m || Visits(r, key)
  {
    var afterTests := RecordTests(m, r.grade, r.tests);
    var handled := r.failedTests[..WellFormedRun(r.failedTests)];
    TestsKeys(m, r.grade, r.tests, key);
    FailuresKeys(afterTests, handled, key);
    assert (exists j :: 0 <= j < |handled| && Key(handled[j].test.name) == key)
       <==> (exists j :: 0 <= j < WellFormedRun(r.failedTests) && Key(r.failedTests[j].test.name) == key) by {
      forall j | 0 <= j < |handled| ensures handled[j] == r.failedTests[j] {}
    }
  }

  /** The mapping holds an entry for a key exactly when some test or handled failed test of some result has that key. */
  lemma RecordAllKeys(results: seq<TestResult>, key: string)
    ensures key in RecordAll(results) <==> exists i :: 0 <= i < |results| && Visits(results[i], key)
  {
    RecordAllKeysUpTo(results, key, |results|);
    assert results[..|results|] == results;
  }

  lemma {:induction false} RecordAllKeysUpTo(results: seq<TestResult>, key: string, n: nat)
    requires n <= |results|
    ensures key in RecordAll(results[..n]) <==> exists i :: 0 <= i < n && Visits(results[i], key)
  {
    if n > 0 {
      RecordAllKeysUpTo(results, key, n - 1);
      assert results[..n][..n - 1] == results[..n - 1];
      ResultKeys(RecordAll(results[..n - 1]), results[n - 1], key);
    }
  }

  /** The returned keys: `"total"`, `"possible"` and the key of every test or handled failed test. */
  lemma ScoresKeys(results: seq<TestResult>, key: string)
    ensures key in Scores(results) <==> key == "total" || key == "possible" || exists i :: 0 <= i < |results| && Visits(results[i], key)
  {
    RecordAllKeys(results, key);
  }

  /** A result whose grade lies in `[0, 1]` and whose tests have non-negative values. */
  predicate Proper(r: TestResult)
  {
    0.0 <= r.grade <= 1.0 && forall k :: 0 <= k < |r.tests| ==> r.tests[k].value >= 0.0
  }

  lemma WeightedBounds(grade: real, value: real)
    requires 0.0 <= grade <= 1.0 && value >= 0.0
    ensures 0.0 <= Weighted(grade, value) <= value
  {
    assert grade * value <= 1.0 * value;
  }

  lemma {:induction false} TestsEarnedBounds(r: TestResult, n: nat)
    requires Proper(r) && n <= |r.tests|
    ensures 0.0 <= TestsEarned(r.grade, r.tests[..n]) <= TestsPossible(r.tests[..n])
  {
    if n > 0 {
      var init := r.tests[..n][..n - 1];
      assert init == r.tests[..n - 1];
      TestsEarnedBounds(r, n - 1);
      WeightedBounds(r.grade, r.tests[n - 1].value);
    }
  }

  /** With proper results, `"total"` is between zero and `"possible"`. */
  lemma {:induction false} EarnedAtMostPossible(results: seq<TestResult>)
    requires forall i :: 0 <= i < |results| ==> Proper(results[i])
    ensures 0.0 <= Earned(results) <= Possible(results)
  {
    if |results| > 0 {
      var last := results[|results| - 1];
      EarnedAtMostPossible(results[..|results| - 1]);
      TestsEarnedBounds(last, |last.tests|);
      assert last.tests[..|last.tests|] == last.tests;
    }
  }

  /**
   A result collected twice, as when the same check is called twice, counts
   its tests twice in `"total"` and `"possible"`.
   */
  lemma RepeatedResultCountsTwice(results: seq<TestResult>, r: TestResult)
    ensures Possible(results + [r, r]) == Possible(results) + 2.0 * TestsPossible(r.tests)
    ensures Earned(results + [r, r]) == Earned(results) + 2.0 * TestsEarned(r.grade, r.tests)
    ensures Scores(results + [r, r])["possible"] == Points(Possible(results) + 2.0 * TestsPossible(r.tests))
  {
    var twice := results + [r, r];
    assert twice[..|twice| - 1] == results + [r];
    assert (results + [r])[..|results|] == results;
  }
}
