/** Order-preserving filtering of a sequence, the shape of a Go loop that appends the elements
    passing a test. */
module Sequences {

  /** The elements of `s` that `keep` accepts, in their order in `s`. */
  function Filter<T>(s: seq<T>, keep: T -> bool): (r: seq<T>)
    ensures |r| <= |s|
  {
    if |s| == 0 then []
    else (if keep(s[0]) then [s[0]] else []) + Filter(s[1..], keep)
  }

  /** An element is kept iff it occurs in `s` and is accepted. */
  lemma {:induction false} FilterMembership<T>(s: seq<T>, keep: T -> bool)
    ensures forall x :: x in Filter(s, keep) <==> x in s && keep(x)
  {
    if |s| > 0 {
      FilterMembership(s[1..], keep);
      assert s == [s[0]] + s[1..];
    }
  }

  /** Filtering distributes over concatenation. */
  lemma {:induction false} FilterAppend<T>(a: seq<T>, b: seq<T>, keep: T -> bool)
    ensures Filter(a + b, keep) == Filter(a, keep) + Filter(b, keep)
  {
    if |a| > 0 {
      assert (a + b)[1..] == a[1..] + b;
      FilterAppend(a[1..], b, keep);
    } else {
      assert a + b == b;
    }
  }

  /** Around an accepted element j: the kept elements before it, then it, then the kept ones after. */
  lemma FilterSplitAt<T>(s: seq<T>, keep: T -> bool, j: int)
    requires 0 <= j < |s| && keep(s[j])
    ensures Filter(s, keep) == Filter(s[..j], keep) + [s[j]] + Filter(s[j + 1..], keep)
  {
    assert s[..j] + s[j..] == s;
    FilterAppend(s[..j], s[j..], keep);
    assert s[j..][1..] == s[j + 1..];
  }

  /** Two accepted elements i < j keep their relative order in the result. */
  lemma FilterKeepsOrder<T>(s: seq<T>, keep: T -> bool, i: int, j: int)
    requires 0 <= i < j < |s|
    requires keep(s[i]) && keep(s[j])
    ensures var r := Filter(s, keep);
              exists k, l :: 0 <= k < l < |r| && r[k] == s[i] && r[l] == s[j]
  {
    var front := Filter(s[..j], keep);
    FilterSplitAt(s, keep, j);
    FilterMembership(s[..j], keep);
    assert s[..j][i] == s[i];
    assert s[i] in front;
    var k :| 0 <= k < |front| && front[k] == s[i];
    var r := Filter(s, keep);
    assert r[k] == s[i] && r[|front|] == s[j];
  }
}
