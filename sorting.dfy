/**
 Python's `sorted` on a list of strings: ascending in the lexicographic
 order of code points, where a proper prefix comes first.
 */
module Sorting {

  /** `a <= b` for Python strings. */
  predicate Below(a: string, b: string)
    decreases |a|
  {
    |a| == 0 || (|b| > 0 && (a[0] < b[0] || (a[0] == b[0] && Below(a[1..], b[1..]))))
  }

  lemma {:induction false} BelowTotal(a: string, b: string)
    ensures Below(a, b) || Below(b, a)
    decreases |a|
  {
    if |a| > 0 && |b| > 0 && a[0] == b[0] {
      BelowTotal(a[1..], b[1..]);
    }
  }

  lemma {:induction false} BelowTransitive(a: string, b: string, c: string)
    requires Below(a, b) && Below(b, c)
    ensures Below(a, c)
    decreases |a|
  {
    if |a| > 0 && a[0] == b[0] && b[0] == c[0] {
      BelowTransitive(a[1..], b[1..], c[1..]);
    }
  }

  lemma {:induction false} BelowAntisymmetric(a: string, b: string)
    requires Below(a, b) && Below(b, a)
    ensures a == b
    decreases |a|
  {
    if |a| > 0 {
      BelowAntisymmetric(a[1..], b[1..]);
      assert a == [a[0]] + a[1..];
      assert b == [b[0]] + b[1..];
    }
  }

  predicate Ascending(s: seq<string>)
  {
    forall j, k :: 0 <= j < k < |s| ==> Below(s[j], s[k])
  }

  /** Puts `x` in front of the first element it is below. */
  function Insert(x: string, s: seq<string>): (r: seq<string>)
    ensures multiset(r) == multiset(s) + multiset{x}
  {
    if |s| == 0 then [x]
    else if Below(x, s[0]) then [x] + s
    else
      assert s == [s[0]] + s[1..];
      [s[0]] + Insert(x, s[1..])
  }

  /** `sorted(s)`. */
  function Sort(s: seq<string>): (r: seq<string>)
    ensures multiset(r) == multiset(s)
  {
    if |s| == 0 then []
    else
      assert s == [s[0]] + s[1..];
      Insert(s[0], Sort(s[1..]))
  }

  lemma {:induction false} InsertAscending(x: string, s: seq<string>)
    requires Ascending(s)
    ensures Ascending(Insert(x, s))
  {
    if |s| > 0 && !Below(x, s[0]) {
      AscendingTail(s);
      InsertAscending(x, s[1..]);
      BelowTotal(x, s[0]);
      AllAbove(s[0], Insert(x, s[1..]), s[1..], x);
      ConsAscending(s[0], Insert(x, s[1..]));
    } else if |s| > 0 {
      forall k | 0 <= k < |s| ensures Below(x, s[k]) {
        if k > 0 {
          BelowTransitive(x, s[0], s[k]);
        }
      }
      ConsAscending(x, s);
    }
  }

  lemma AscendingTail(s: seq<string>)
    requires Ascending(s) && |s| > 0
    ensures Ascending(s[1..]) && forall k :: 0 <= k < |s| - 1 ==> Below(s[0], s[1..][k])
  {
    forall j, k | 0 <= j < k < |s| - 1 ensures Below(s[1..][j], s[1..][k]) {
      assert s[1..][j] == s[j + 1] && s[1..][k] == s[k + 1];
    }
    forall k | 0 <= k < |s| - 1 ensures Below(s[0], s[1..][k]) {
      assert s[1..][k] == s[k + 1];
    }
  }

  /** A bound below `x` and below every element of `s` is below every element of `t`, when `t` holds just those. */
  lemma AllAbove(y: string, t: seq<string>, s: seq<string>, x: string)
    requires multiset(t) == multiset(s) + multiset{x}
    requires Below(y, x) && forall k :: 0 <= k < |s| ==> Below(y, s[k])
    ensures forall k :: 0 <= k < |t| ==> Below(y, t[k])
  {
    forall k | 0 <= k < |t| ensures Below(y, t[k]) {
      assert t[k] in multiset(t);
      if t[k] != x {
        assert t[k] in multiset(s);
        var m :| 0 <= m < |s| && s[m] == t[k];
      }
    }
  }

  /** An ascending list stays ascending behind a value below all of it. */
  lemma ConsAscending(y: string, t: seq<string>)
    requires Ascending(t) && forall k :: 0 <= k < |t| ==> Below(y, t[k])
    ensures Ascending([y] + t)
  {
    var r := [y] + t;
    forall j, k | 0 <= j < k < |r| ensures Below(r[j], r[k]) {
      assert r[k] == t[k - 1];
      if j > 0 {
        assert r[j] == t[j - 1];
      }
    }
  }

  /** `sorted` puts its result in ascending order (its contract says it is a permutation). */
  lemma {:induction false} SortAscending(s: seq<string>)
    ensures Ascending(Sort(s))
  {
    if |s| > 0 {
      SortAscending(s[1..]);
      InsertAscending(s[0], Sort(s[1..]));
    }
  }
}
