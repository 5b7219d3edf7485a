/**
 The string operations the grading engine relies on: prefix and substring
 tests (Python's `startswith` and `in`), splitting on and joining with a
 separator (`str.split`, `str.join`), and decimal rendering of integers
 (`str(int)`, as used by `str.format`).
 */
module Text {

  predicate StartsWith(s: string, prefix: string)
  {
    |prefix| <= |s| && s[..|prefix|] == prefix
  }

  /** `pat` occurs in `s` starting at index `i`. */
  predicate OccursAt(s: string, pat: string, i: nat)
  {
    i + |pat| <= |s| && s[i..i + |pat|] == pat
  }

  /** Python's `pat in s` for strings: `pat` is a substring of `s`. */
  predicate Contains(s: string, pat: string)
  {
    exists i: nat | i <= |s| - |pat| :: OccursAt(s, pat, i)
  }

  /** Concatenation of a sequence of strings, Python's `''.join(parts)`. */
  function ConcatAll(parts: seq<string>): string
  {
    if |parts| == 0 then "" else parts[0] + ConcatAll(parts[1..])
  }

  /** Two sequences that agree on their first `m` elements agree on every slice within them. */
  lemma SliceOfCommonPrefix<T>(a: seq<T>, b: seq<T>, m: nat, i: nat, k: nat)
    requires i <= k <= m <= |a| && m <= |b| && a[..m] == b[..m]
    ensures a[i..k] == b[i..k]
  {
    forall x | i <= x < k ensures a[x] == b[x] {
      assert a[x] == a[..m][x] && b[x] == b[..m][x];
    }
  }

  lemma AppendAssoc<T>(a: seq<T>, b: seq<T>, c: seq<T>)
    ensures (a + b) + c == a + (b + c)
  {
  }

  lemma {:induction false} ConcatAllAppend(a: seq<string>, b: seq<string>)
    ensures ConcatAll(a + b) == ConcatAll(a) + ConcatAll(b)
  {
    if |a| == 0 {
      assert a + b == b;
    } else {
      assert (a + b)[1..] == a[1..] + b;
      ConcatAllAppend(a[1..], b);
    }
  }

  /** Python's `s.split(sep)`: never empty, and no part contains `sep`. */
  function Split(s: string, sep: char): (parts: seq<string>)
    ensures |parts| >= 1
    ensures forall k :: 0 <= k < |parts| ==> sep !in parts[k]
  {
    if |s| == 0 then [""]
    else
      var rest := Split(s[1..], sep);
      if s[0] == sep then [""] + rest
      else [[s[0]] + rest[0]] + rest[1..]
  }

  /** Python's `sep.join(parts)`. */
  function Join(parts: seq<string>, sep: char): string
  {
    if |parts| == 0 then ""
    else if |parts| == 1 then parts[0]
    else parts[0] + [sep] + Join(parts[1..], sep)
  }

  /** Every part followed by exactly one `sep`. */
  function Terminated(parts: seq<string>, sep: char): string
  {
    if |parts| == 0 then "" else parts[0] + [sep] + Terminated(parts[1..], sep)
  }

  lemma {:induction false} JoinConsFirst(c: char, x: string, ys: seq<string>, sep: char)
    ensures Join([[c] + x] + ys, sep) == [c] + Join([x] + ys, sep)
  {
    if |ys| > 0 {
      assert ([[c] + x] + ys)[1..] == ys;
      assert ([x] + ys)[1..] == ys;
    }
  }

  /** Joining the parts of a split gives the original string back. */
  lemma {:induction false} JoinSplit(s: string, sep: char)
    ensures Join(Split(s, sep), sep) == s
  {
    if |s| > 0 {
      var rest := Split(s[1..], sep);
      JoinSplit(s[1..], sep);
      if s[0] == sep {
        assert ([""] + rest)[1..] == rest;
        assert s == [sep] + s[1..];
      } else {
        assert rest == [rest[0]] + rest[1..];
        JoinConsFirst(s[0], rest[0], rest[1..], sep);
        assert s == [s[0]] + s[1..];
      }
    }
  }

  lemma {:induction false} SplitNoSep(a: string, sep: char)
    requires sep !in a
    ensures Split(a, sep) == [a]
  {
    if |a| > 0 {
      assert sep !in a[1..] by {
        forall k | 0 <= k < |a| - 1 ensures a[1..][k] != sep { assert a[1..][k] == a[k + 1]; }
      }
      SplitNoSep(a[1..], sep);
      assert [a[0]] + a[1..] == a;
    }
  }

  lemma {:induction false} SplitSepAfter(a: string, b: string, sep: char)
    requires sep !in a
    ensures Split(a + [sep] + b, sep) == [a] + Split(b, sep)
  {
    var s := a + [sep] + b;
    if |a| == 0 {
      assert s[1..] == b;
    } else {
      assert sep !in a[1..] by {
        forall k | 0 <= k < |a| - 1 ensures a[1..][k] != sep { assert a[1..][k] == a[k + 1]; }
      }
      assert s[1..] == a[1..] + [sep] + b;
      SplitSepAfter(a[1..], b, sep);
      assert [a[0]] + a[1..] == a;
    }
  }

  /** Splitting a join of separator-free parts gives the parts back. */
  lemma {:induction false} SplitJoin(parts: seq<string>, sep: char)
    requires |parts| >= 1
    requires forall k :: 0 <= k < |parts| ==> sep !in parts[k]
    ensures Split(Join(parts, sep), sep) == parts
  {
    if |parts| == 1 {
      SplitNoSep(parts[0], sep);
    } else {
      SplitJoin(parts[1..], sep);
      SplitSepAfter(parts[0], Join(parts[1..], sep), sep);
      assert [parts[0]] + parts[1..] == parts;
    }
  }

  /** Terminating every part with `sep` is joining the parts and one more empty part. */
  lemma {:induction false} TerminatedIsJoin(parts: seq<string>, sep: char)
    ensures Terminated(parts, sep) == Join(parts + [""], sep)
  {
    if |parts| > 0 {
      assert (parts + [""])[1..] == parts[1..] + [""];
      TerminatedIsJoin(parts[1..], sep);
    }
  }

  /**
   Splitting a text in which every separator-free part is followed by one
   separator gives back exactly those parts and a final empty part.
   */
  lemma SplitTerminated(parts: seq<string>, sep: char)
    requires forall k :: 0 <= k < |parts| ==> sep !in parts[k]
    ensures Split(Terminated(parts, sep), sep) == parts + [""]
  {
    TerminatedIsJoin(parts, sep);
    SplitJoin(parts + [""], sep);
  }

  function Digit(d: nat): (c: char)
    requires d < 10
    ensures '0' <= c <= '9'
  {
    "0123456789"[d]
  }

  /** Decimal digits of `n`, without leading zeros. */
  function NatToString(n: nat): (r: string)
    ensures |r| >= 1 && forall k :: 0 <= k < |r| ==> '0' <= r[k] <= '9'
    ensures |r| > 1 ==> r[0] != '0'
  {
    if n < 10 then [Digit(n)] else NatToString(n / 10) + [Digit(n % 10)]
  }

  /** Python's `str(i)` for an integer. */
  function IntToString(i: int): string
  {
    if i < 0 then "-" + NatToString(-i) else NatToString(i)
  }
}
