/** Order-preserving filtering, the shape of every "keep the ones that ..." loop of the engine. */
module Selection {
  import opened Text

  /** The elements of `s` that satisfy `keep`, in their original order. */
  function Select<T>(s: seq<T>, keep: T -> bool): seq<T>
  {
    if |s| == 0 then [] else (if keep(s[0]) then [s[0]] else []) + Select(s[1..], keep)
  }

  /** The indices of the elements of `s` that satisfy `keep`, in increasing order. */
  function Positions<T>(s: seq<T>, keep: T -> bool): seq<nat>
  {
    if |s| == 0 then []
    else Positions(s[..|s| - 1], keep) + (if keep(s[|s| - 1]) then [|s| - 1] else [])
  }

  lemma {:induction false} SelectAppend<T>(a: seq<T>, b: seq<T>, keep: T -> bool)
    ensures Select(a + b, keep) == Select(a, keep) + Select(b, keep)
  {
    if |a| == 0 {
      assert a + b == b;
    } else {
      assert (a + b)[0] == a[0] && (a + b)[1..] == a[1..] + b;
      SelectAppend(a[1..], b, keep);
      AppendAssoc((if keep(a[0]) then [a[0]] else []), Select(a[1..], keep), Select(b, keep));
    }
  }

  /** An element is selected exactly when it is in the input and satisfies `keep`. */
  lemma {:induction false} SelectMembers<T>(s: seq<T>, keep: T -> bool)
    ensures forall t :: t in Select(s, keep) <==> t in s && keep(t)
  {
    if |s| > 0 {
      SelectMembers(s[1..], keep);
      assert s == [s[0]] + s[1..];
    }
  }

  /** Extending the input by one element extends the selection by that element or by nothing. */
  lemma SelectSnoc<T>(s: seq<T>, i: nat, keep: T -> bool)
    requires i < |s|
    ensures Select(s[..i + 1], keep) == Select(s[..i], keep) + (if keep(s[i]) then [s[i]] else [])
  {
    assert s[..i + 1] == s[..i] + [s[i]];
    SelectAppend(s[..i], [s[i]], keep);
    assert Select([s[i]], keep) == (if keep(s[i]) then [s[i]] else []) + Select([s[i]][1..], keep);
  }

  /** Extending the input by one element extends the positions by its index or by nothing. */
  lemma PositionsSnoc<T>(s: seq<T>, i: nat, keep: T -> bool)
    requires i < |s|
    ensures Positions(s[..i + 1], keep) == Positions(s[..i], keep) + (if keep(s[i]) then [i] else [])
  {
    assert s[..i + 1][..i] == s[..i];
  }

  /**
   The selection is exactly the elements at `Positions`: those indices
   increase, and an index is among them exactly when its element satisfies
   `keep`.
   */
  lemma SelectPositions<T>(s: seq<T>, keep: T -> bool)
    ensures var r, ix := Select(s, keep), Positions(s, keep);
            && |r| == |ix|
            && (forall j :: 0 <= j < |ix| ==> ix[j] < |s| && r[j] == s[ix[j]])
            && (forall j, k :: 0 <= j < k < |ix| ==> ix[j] < ix[k])
            && (forall i :: 0 <= i < |s| ==> (i in ix <==> keep(s[i])))
  {
    PositionsUpTo(s, keep, |s|);
    SelectUpTo(s, keep, |s|);
    assert s[..|s|] == s;
  }

  /** The positions within the first `n` elements increase and are exactly those of the kept elements. */
  lemma {:induction false} PositionsUpTo<T>(s: seq<T>, keep: T -> bool, n: nat)
    requires n <= |s|
    ensures var ix := Positions(s[..n], keep);
            && (forall j :: 0 <= j < |ix| ==> ix[j] < n)
            && (forall j, k :: 0 <= j < k < |ix| ==> ix[j] < ix[k])
            && (forall i :: 0 <= i < n ==> (i in ix <==> keep(s[i])))
  {
    if n > 0 {
      PositionsUpTo(s, keep, n - 1);
      assert s[..n][..n - 1] == s[..n - 1];
    }
  }

  /** The selection from the first `n` elements lists the elements at their positions. */
  lemma {:induction false} SelectUpTo<T>(s: seq<T>, keep: T -> bool, n: nat)
    requires n <= |s|
    ensures var r, ix := Select(s[..n], keep), Positions(s[..n], keep);
            && |r| == |ix|
            && (forall j :: 0 <= j < |ix| ==> ix[j] < |s| && r[j] == s[ix[j]])
  {
    if n > 0 {
      SelectUpTo(s, keep, n - 1);
      SelectSnoc(s, n - 1, keep);
      assert s[..n][..n - 1] == s[..n - 1];
    }
  }
}
