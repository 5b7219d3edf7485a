/**
 What a test run reports and what the score mapping records. Grades and
 point values are exact reals rather than floating point.
 */
module Results {
  import opened Wrappers

  /** A failed test's hint, with its `failed_test_hidden` flag. */
  datatype Hint = Hint(text: string, hidden: bool)

  /** A test case: its file name and its point value. */
  datatype TestCase = TestCase(name: string, value: real)

  /**
   An entry of `failed_tests`: a pair of the failed test and its hint, or a
   tuple too short to hold both (indexing it raises `IndexError`).
   */
  datatype FailedTest = FailedTest(test: TestCase, hint: Hint) | Malformed

  /** The outcome of running a group of test files. */
  datatype TestResult = TestResult(paths: seq<string>, grade: real, tests: seq<TestCase>, failedTests: seq<FailedTest>)

  /**
   One question's entry in the score mapping: `score` and `possible` are
   present when a test set it, `hint` and `hidden` when a failure did.
   */
  datatype Entry = Entry(score: Option<real>, possible: Option<real>, hint: Option<Hint>, hidden: Option<bool>)

  /** A value of the score mapping: a question's entry, or one of the `"total"` and `"possible"` sums. */
  datatype ScoreValue = Question(entry: Entry) | Points(amount: real)

  /** The last component of a `/`-separated path, `os.path.split(name)[1]`. */
  function BaseName(name: string): string
  {
    if |name| == 0 || name[|name| - 1] == '/' then "" else BaseName(name[..|name| - 1]) + [name[|name| - 1]]
  }

  /** The base name is the longest suffix without a `/`. */
  lemma {:induction false} BaseNameSpec(name: string)
    ensures var b := BaseName(name);
            && '/' !in b
            && |b| <= |name| && name[|name| - |b|..] == b
            && (|b| < |name| ==> name[|name| - |b| - 1] == '/')
  {
    BaseNameNoSlash(name);
    if |name| > 0 && name[|name| - 1] != '/' {
      var init := name[..|name| - 1];
      BaseNameSpec(init);
      var b := BaseName(init);
      var c := name[|name| - 1];
      assert name == init + [c];
      assert BaseName(name) == b + [c];
      SnocSuffix(init, b, c);
    }
  }

  lemma {:induction false} BaseNameNoSlash(name: string)
    ensures '/' !in BaseName(name)
  {
    if |name| > 0 && name[|name| - 1] != '/' {
      BaseNameNoSlash(name[..|name| - 1]);
    }
  }

  /** A suffix of a string, extended by the character appended to the string. */
  lemma SnocSuffix(s: string, b: string, c: char)
    requires |b| <= |s| && s[|s| - |b|..] == b
    ensures (s + [c])[|s| - |b|..] == b + [c]
    ensures |b| < |s| ==> (s + [c])[|s| - |b| - 1] == s[|s| - |b| - 1]
  {
  }

  /** The score mapping key of a test: its base name without the last three characters (`[:-3]`). */
  function Key(name: string): string
  {
    var b := BaseName(name);
    if |b| >= 3 then b[..|b| - 3] else ""
  }

  /** The key is the base name without its last three characters, or empty for a shorter base name; it has no `/`. */
  lemma KeySpec(name: string)
    ensures '/' !in Key(name)
    ensures var b := BaseName(name);
            && (|b| >= 3 ==> Key(name) + b[|b| - 3..] == b)
            && (|b| < 3 ==> Key(name) == "")
  {
    BaseNameNoSlash(name);
    var b := BaseName(name);
    if |b| >= 3 {
      assert b == b[..|b| - 3] + b[|b| - 3..];
    }
  }

  /** Whatever follows the last `/` is the base name. */
  lemma {:induction false} BaseNameAfterSlash(head: string, tail: string)
    requires |head| > 0 && head[|head| - 1] == '/' && '/' !in tail
    ensures BaseName(head + tail) == tail
  {
    var name := head + tail;
    if |tail| == 0 {
      assert name == head;
    } else {
      var init := tail[..|tail| - 1];
      assert name[..|name| - 1] == head + init;
      BaseNameAfterSlash(head, init);
      assert tail == init + [tail[|tail| - 1]];
    }
  }

  /** A test file `<dir>/<stem><ext>` with a three-character extension is keyed by its stem, whatever the directory. */
  lemma KeyOfPath(dir: string, stem: string, ext: string)
    requires '/' !in stem && '/' !in ext && |ext| == 3
    ensures Key(dir + "/" + stem + ext) == stem
  {
    var tail := stem + ext;
    assert '/' !in tail;
    assert dir + "/" + stem + ext == (dir + "/") + tail;
    BaseNameAfterSlash(dir + "/", tail);
    assert tail[..|tail| - 3] == stem;
  }
}
