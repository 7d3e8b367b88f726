/** The sequence operations behind the pandas idioms the dashboard uses:
    selection of rows by a boolean mask (`df[mask]`) and the distinct values
    of a column in order of first appearance (`Series.unique()`). */
module Sequences {

  /** `r` is obtained from `s` by deleting elements: nothing is added,
      duplicated or reordered. */
  predicate SubsequenceOf<T(==)>(r: seq<T>, s: seq<T>)
    decreases |s|
  {
    if |r| == 0 then true
    else if |s| == 0 then false
    else (r[|r| - 1] == s[|s| - 1] && SubsequenceOf(r[..|r| - 1], s[..|s| - 1]))
         || SubsequenceOf(r, s[..|s| - 1])
  }

  predicate NoDuplicates<T(==)>(s: seq<T>) {
    forall i, j | 0 <= i < j < |s| :: s[i] != s[j]
  }

  // ---------------------------------------------------------------------------
  // Boolean-mask selection

  /** The elements of `s` on which the mask `p` is true, in their original
      order: what `df[mask]` keeps of the rows of `df`. */
  function Where<T>(s: seq<T>, p: T -> bool): (r: seq<T>)
    ensures |r| <= |s|
    ensures forall x | x in r :: p(x)
    decreases |s|
  {
    if |s| == 0 then []
    else
      var w := Where(s[..|s| - 1], p);
      if p(s[|s| - 1]) then w + [s[|s| - 1]] else w
  }

  lemma WhereSnoc<T>(s: seq<T>, x: T, p: T -> bool)
    ensures Where(s + [x], p) == if p(x) then Where(s, p) + [x] else Where(s, p)
  {
    assert (s + [x])[..|s|] == s;
  }

  /** A row is kept exactly when it is a row of the input and the mask holds of it. */
  lemma {:induction false} WhereMembership<T>(s: seq<T>, p: T -> bool, x: T)
    ensures x in Where(s, p) <==> x in s && p(x)
  {
    if |s| > 0 {
      WhereMembership(s[..|s| - 1], p, x);
      assert s == s[..|s| - 1] + [s[|s| - 1]];
    }
  }

  /** A kept row occurs in the result as often as in the input; a dropped row not at all. */
  lemma {:induction false} WhereCount<T>(s: seq<T>, p: T -> bool, x: T)
    ensures multiset(Where(s, p))[x] == if p(x) then multiset(s)[x] else 0
  {
    if |s| > 0 {
      WhereCount(s[..|s| - 1], p, x);
      assert s == s[..|s| - 1] + [s[|s| - 1]];
    }
  }

  /** Selection keeps the input order. */
  lemma {:induction false} WhereIsSubsequence<T>(s: seq<T>, p: T -> bool)
    ensures SubsequenceOf(Where(s, p), s)
  {
    if |s| > 0 {
      var init := s[..|s| - 1];
      WhereIsSubsequence(init, p);
      if p(s[|s| - 1]) {
        var r := Where(init, p) + [s[|s| - 1]];
        assert r[..|r| - 1] == Where(init, p);
      }
    }
  }

  /** Two masks that agree on every row select the same rows. */
  lemma {:induction false} WhereCongruent<T>(s: seq<T>, p: T -> bool, q: T -> bool)
    requires forall x | x in s :: p(x) == q(x)
    ensures Where(s, p) == Where(s, q)
  {
    if |s| > 0 {
      var init := s[..|s| - 1];
      assert forall x | x in init :: x in s;
      WhereCongruent(init, p, q);
    }
  }

  /** Selecting with `p` and then with `q` is selecting with their conjunction `pq`. */
  lemma {:induction false} WhereComposed<T>(s: seq<T>, p: T -> bool, q: T -> bool, pq: T -> bool)
    requires forall x | x in s :: pq(x) == (p(x) && q(x))
    ensures Where(Where(s, p), q) == Where(s, pq)
  {
    if |s| > 0 {
      var init, last := s[..|s| - 1], s[|s| - 1];
      assert forall x | x in init :: x in s;
      WhereComposed(init, p, q, pq);
      if p(last) {
        WhereSnoc(Where(init, p), last, q);
      }
    }
  }

  /** Applying the same mask twice changes nothing. */
  lemma {:induction false} WhereIdempotent<T>(s: seq<T>, p: T -> bool)
    ensures Where(Where(s, p), p) == Where(s, p)
  {
    WhereComposed(s, p, p, p);
  }

  // ---------------------------------------------------------------------------
  // Distinct values in order of first appearance

  /** Index of the first occurrence of `x` in `s`. */
  function FirstIndex<T(==)>(s: seq<T>, x: T): (i: nat)
    requires x in s
    ensures i < |s| && s[i] == x
    ensures forall j | 0 <= j < i :: s[j] != x
  {
    if s[0] == x then 0 else 1 + FirstIndex(s[1..], x)
  }

  /** The distinct elements of `s` in order of first appearance: `unique()`. */
  function Distinct<T(==)>(s: seq<T>): (r: seq<T>)
    ensures forall x | x in s :: x in r
    ensures forall x | x in r :: x in s
    ensures NoDuplicates(r)
    decreases |s|
  {
    if |s| == 0 then []
    else
      assert s == s[..|s| - 1] + [s[|s| - 1]];
      var d := Distinct(s[..|s| - 1]);
      if s[|s| - 1] in d then d else d + [s[|s| - 1]]
  }

  lemma FirstIndexExtended<T>(s: seq<T>, y: T, x: T)
    requires x in s
    ensures x in s + [y] && FirstIndex(s + [y], x) == FirstIndex(s, x)
  {
    var i, j := FirstIndex(s + [y], x), FirstIndex(s, x);
    assert (s + [y])[j] == x;
  }

  lemma FirstIndexOfNew<T>(s: seq<T>, y: T)
    requires y !in s
    ensures FirstIndex(s + [y], y) == |s|
  {
    assert (s + [y])[|s|] == y;
  }

  /** `Distinct` lists each value in the order of its first occurrence in `s`. */
  lemma {:induction false} DistinctFirstAppearanceOrder<T>(s: seq<T>)
    ensures forall i, j | 0 <= i < j < |Distinct(s)| ::
      FirstIndex(s, Distinct(s)[i]) < FirstIndex(s, Distinct(s)[j])
  {
    if |s| > 0 {
      var init, y := s[..|s| - 1], s[|s| - 1];
      assert s == init + [y];
      DistinctFirstAppearanceOrder(init);
      var d := Distinct(init);
      forall e | e in init
        ensures FirstIndex(s, e) == FirstIndex(init, e)
      {
        FirstIndexExtended(init, y, e);
      }
      if y !in init {
        FirstIndexOfNew(init, y);
        var r := d + [y];
        assert Distinct(s) == r;
        forall i, j | 0 <= i < j < |r|
          ensures FirstIndex(s, r[i]) < FirstIndex(s, r[j])
        {
          assert r[i] == d[i] && d[i] in init;
          if j < |d| {
            assert r[j] == d[j] && d[j] in init;
          }
        }
      }
    }
  }

  // ---------------------------------------------------------------------------
  // Duplicates and permutations

  lemma {:induction false} NoDuplicatesCount<T>(s: seq<T>, x: T)
    requires NoDuplicates(s)
    ensures multiset(s)[x] <= 1
  {
    if |s| > 0 {
      var init, last := s[..|s| - 1], s[|s| - 1];
      assert s == init + [last];
      NoDuplicatesCount(init, x);
      if x == last {
        assert x !in init;
      }
    }
  }

  lemma TwoOccurrences<T>(s: seq<T>, i: nat, j: nat)
    requires i < j < |s| && s[i] == s[j]
    ensures multiset(s)[s[i]] >= 2
  {
    assert s == s[..j] + s[j..];
    assert s[i] in s[..j];
    assert s[j] in s[j..];
  }

  /** Reordering a duplicate-free sequence leaves it duplicate-free. */
  lemma NoDuplicatesPermuted<T>(a: seq<T>, b: seq<T>)
    requires multiset(a) == multiset(b) && NoDuplicates(a)
    ensures NoDuplicates(b)
  {
    forall i, j | 0 <= i < j < |b|
      ensures b[i] != b[j]
    {
      if b[i] == b[j] {
        TwoOccurrences(b, i, j);
        NoDuplicatesCount(a, b[i]);
        assert false;
      }
    }
  }
}
