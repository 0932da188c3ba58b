/**
 * Sequence helpers shared by the store: order-preserving filtering (the
 * model of a `DELETE ... WHERE` or a `filter_by` query over a table) and
 * pairwise constraints (the model of a uniqueness constraint or of a
 * "no two rows clash" invariant).
 */
module Seqs {

  /** The elements of `s` that satisfy `keep`, in their original order. */
  function Filter<T(!new)>(s: seq<T>, keep: T -> bool): (r: seq<T>)
    ensures |r| <= |s|
    ensures forall x :: x in r <==> x in s && keep(x)
    decreases |s|
  {
    if s == [] then []
    else Filter(s[..|s| - 1], keep) + (if keep(s[|s| - 1]) then [s[|s| - 1]] else [])
  }

  /** Filtering a sequence with one more element at the end. */
  lemma FilterSnoc<T(!new)>(s: seq<T>, x: T, keep: T -> bool)
    ensures Filter(s + [x], keep) == Filter(s, keep) + (if keep(x) then [x] else [])
  {
    assert (s + [x])[..|s|] == s;
  }

  /** Every two distinct positions of `s`, earlier one first, satisfy `ok`. */
  predicate Pairwise<T>(s: seq<T>, ok: (T, T) -> bool)
  {
    forall i, j :: 0 <= i < j < |s| ==> ok(s[i], s[j])
  }

  /** A prefix of a pairwise-constrained sequence is pairwise-constrained. */
  lemma PairwisePrefix<T>(s: seq<T>, n: nat, ok: (T, T) -> bool)
    requires n <= |s| && Pairwise(s, ok)
    ensures Pairwise(s[..n], ok)
  {
    forall i, j | 0 <= i < j < n ensures ok(s[..n][i], s[..n][j]) {
      assert s[..n][i] == s[i] && s[..n][j] == s[j];
    }
  }

  /** Appending an element that agrees with every earlier one keeps the constraint. */
  lemma PairwiseSnoc<T>(s: seq<T>, x: T, ok: (T, T) -> bool)
    requires Pairwise(s, ok)
    requires forall k :: 0 <= k < |s| ==> ok(s[k], x)
    ensures Pairwise(s + [x], ok)
  {
    forall i, j | 0 <= i < j < |s| + 1 ensures ok((s + [x])[i], (s + [x])[j]) {
      if j < |s| {
        assert (s + [x])[i] == s[i] && (s + [x])[j] == s[j];
      } else {
        assert (s + [x])[i] == s[i] && (s + [x])[j] == x;
      }
    }
  }

  /** Prepending an element that agrees with every later one keeps the constraint. */
  lemma PairwiseCons<T>(x: T, s: seq<T>, ok: (T, T) -> bool)
    requires Pairwise(s, ok)
    requires forall k :: 0 <= k < |s| ==> ok(x, s[k])
    ensures Pairwise([x] + s, ok)
  {
    forall i, j | 0 <= i < j < |s| + 1 ensures ok(([x] + s)[i], ([x] + s)[j]) {
      assert ([x] + s)[j] == s[j - 1];
      if i > 0 {
        assert ([x] + s)[i] == s[i - 1];
      }
    }
  }

  /** Removing rows never breaks a pairwise constraint. */
  lemma {:induction false} FilterKeepsPairwise<T(!new)>(s: seq<T>, keep: T -> bool, ok: (T, T) -> bool)
    requires Pairwise(s, ok)
    ensures Pairwise(Filter(s, keep), ok)
    decreases |s|
  {
    if s != [] {
      var init, last := s[..|s| - 1], s[|s| - 1];
      PairwisePrefix(s, |s| - 1, ok);
      FilterKeepsPairwise(init, keep, ok);
      var f := Filter(init, keep);
      if keep(last) {
        forall k | 0 <= k < |f| ensures ok(f[k], last) {
          assert f[k] in init;
          var m :| 0 <= m < |init| && init[m] == f[k];
          assert s[m] == f[k] && s[|s| - 1] == last;
        }
        PairwiseSnoc(f, last, ok);
      }
    }
  }
}
