/** `df.groupby(col)['Price'].mean().reset_index()` and
    `sort_values(by='Price', ascending=False)` on listing tables. */
module Aggregates {
  import opened Sequences
  import opened StringOrder
  import opened Listings

  function Sum(xs: seq<real>): real {
    if xs == [] then 0.0 else xs[0] + Sum(xs[1..])
  }

  /** The arithmetic mean, exact (no floating-point rounding). */
  function Mean(xs: seq<real>): real
    requires |xs| > 0
  {
    Sum(xs) / (|xs| as real)
  }

  lemma {:induction false} SumBounds(xs: seq<real>, lo: real, hi: real)
    requires forall i | 0 <= i < |xs| :: lo <= xs[i] <= hi
    ensures (|xs| as real) * lo <= Sum(xs) <= (|xs| as real) * hi
  {
    if xs != [] {
      SumBounds(xs[1..], lo, hi);
    }
  }

  /** A mean lies between the smallest and the largest value averaged. */
  lemma MeanWithin(xs: seq<real>, lo: real, hi: real)
    requires |xs| > 0
    requires forall i | 0 <= i < |xs| :: lo <= xs[i] <= hi
    ensures lo <= Mean(xs) <= hi
  {
    SumBounds(xs, lo, hi);
    var n := |xs| as real;
    assert n * lo <= Sum(xs) <= n * hi;
    assert lo == (n * lo) / n && hi == (n * hi) / n;
  }

  // ---------------------------------------------------------------------------
  // Group keys, sorted as `groupby` sorts them

  /** Strictly increasing in Python's string order. */
  predicate Ascending(ks: seq<string>) {
    forall i, j | 0 <= i < j < |ks| :: LexLess(ks[i], ks[j])
  }

  lemma AscendingNoDuplicates(ks: seq<string>)
    requires Ascending(ks)
    ensures NoDuplicates(ks)
  {
    forall i, j | 0 <= i < j < |ks| ensures ks[i] != ks[j] {
      if ks[i] == ks[j] {
        LexLessIrreflexive(ks[i]);
      }
    }
  }

  /** A key placed in front of larger keys keeps the order strict. */
  lemma PrependAscending(k: string, t: seq<string>)
    requires Ascending(t)
    requires forall x | x in t :: LexLess(k, x)
    ensures Ascending([k] + t)
  {
  }

  function InsertKey(k: string, ks: seq<string>): (r: seq<string>)
    requires Ascending(ks) && k !in ks
    ensures multiset(r) == multiset(ks) + multiset{k}
    ensures Ascending(r)
  {
    if ks == [] then [k]
    else if LexLess(k, ks[0]) then
      assert forall x | x in ks :: LexLess(k, x) by {
        forall x | x in ks ensures LexLess(k, x) {
          var j :| 0 <= j < |ks| && ks[j] == x;
          if j > 0 {
            LexLessTransitive(k, ks[0], ks[j]);
          }
        }
      }
      PrependAscending(k, ks);
      [k] + ks
    else
      LexLessTotal(k, ks[0]);
      assert Ascending(ks[1..]);
      var t := InsertKey(k, ks[1..]);
      assert ks == [ks[0]] + ks[1..];
      assert forall x | x in t :: LexLess(ks[0], x) by {
        forall x | x in t ensures LexLess(ks[0], x) {
          assert x in multiset(t);
          if x != k {
            assert x in multiset(ks[1..]);
            var j :| 0 <= j < |ks[1..]| && ks[1..][j] == x;
            assert ks[j + 1] == x;
          }
        }
      }
      PrependAscending(ks[0], t);
      [ks[0]] + t
  }

  /** The keys in ascending order; the input must be free of duplicates. */
  function SortKeys(ks: seq<string>): (r: seq<string>)
    requires NoDuplicates(ks)
    ensures multiset(r) == multiset(ks)
    ensures Ascending(r)
  {
    if ks == [] then []
    else
      assert ks == [ks[0]] + ks[1..];
      var t := SortKeys(ks[1..]);
      assert ks[0] !in t by {
        assert ks[0] !in multiset(ks[1..]);
      }
      InsertKey(ks[0], t)
  }

  // ---------------------------------------------------------------------------
  // Group-by mean

  /** One row of an aggregate table: a group key and the mean price of its rows. */
  datatype Group = Group(key: string, mean: real)

  function KeysOf(gs: seq<Group>): seq<string> {
    seq(|gs|, i requires 0 <= i < |gs| => gs[i].key)
  }

  /** Sorting the distinct keys loses no key and adds none. */
  lemma SortedDistinctKeys(vs: seq<string>)
    ensures forall k :: k in SortKeys(Distinct(vs)) <==> k in vs
  {
    var d := Distinct(vs);
    var ks := SortKeys(d);
    forall k ensures k in ks <==> k in vs {
      assert k in ks <==> k in multiset(ks);
      assert k in d <==> k in multiset(d);
    }
  }

  /** The mean price of the rows whose `col` equals `k`. */
  function GroupMean(rows: seq<Listing>, col: Column, k: string): real
    requires k in ColumnValues(rows, col)
  {
    SelectNonEmpty(rows, col, k);
    Mean(Prices(Select(rows, col, k)))
  }

  /** `rows.groupby(col)['Price'].mean().reset_index()`: one entry per value
      present in the column, in ascending key order, holding the arithmetic
      mean of the prices of exactly the rows with that value. */
  function GroupMeans(rows: seq<Listing>, col: Column): (r: seq<Group>)
    ensures forall k :: k in KeysOf(r) <==> k in ColumnValues(rows, col)
    ensures Ascending(KeysOf(r))
    ensures forall i | 0 <= i < |r| ::
      var g := Select(rows, col, r[i].key);
      |g| > 0 && r[i].mean == Sum(Prices(g)) / (|g| as real)
  {
    var vs := ColumnValues(rows, col);
    var ks := SortKeys(Distinct(vs));
    SortedDistinctKeys(vs);
    var r := seq(|ks|, i requires 0 <= i < |ks| => Group(ks[i], GroupMean(rows, col, ks[i])));
    assert KeysOf(r) == ks;
    assert forall i | 0 <= i < |r| :: |Select(rows, col, r[i].key)| > 0 by {
      forall i | 0 <= i < |r| ensures |Select(rows, col, r[i].key)| > 0 {
        SelectNonEmpty(rows, col, r[i].key);
      }
    }
    r
  }

  /** A group's mean lies within any bounds of the prices of that group's rows. */
  lemma GroupMeanWithinPrices(rows: seq<Listing>, col: Column, k: string, lo: real, hi: real)
    requires forall row | row in rows && Cell(row, col) == k :: lo <= row.price <= hi
    ensures forall i | 0 <= i < |GroupMeans(rows, col)| && GroupMeans(rows, col)[i].key == k ::
      lo <= GroupMeans(rows, col)[i].mean <= hi
  {
    var r := GroupMeans(rows, col);
    var sel := Select(rows, col, k);
    SelectSpec(rows, col, k);
    forall i | 0 <= i < |r| && r[i].key == k
      ensures lo <= r[i].mean <= hi
    {
      forall j | 0 <= j < |Prices(sel)| ensures lo <= Prices(sel)[j] <= hi {
        assert sel[j] in sel;
      }
      MeanWithin(Prices(sel), lo, hi);
    }
  }

  // ---------------------------------------------------------------------------
  // Ranking by mean, descending

  predicate NonIncreasing(gs: seq<Group>) {
    forall i, j | 0 <= i < j < |gs| :: gs[i].mean >= gs[j].mean
  }

  /** An entry placed in front of entries with no larger mean keeps the order. */
  lemma PrependNonIncreasing(x: Group, t: seq<Group>)
    requires NonIncreasing(t)
    requires forall y | y in t :: y.mean <= x.mean
    ensures NonIncreasing([x] + t)
  {
  }

  /** What is inserted after the head of `gs` has no larger mean than the head. */
  lemma BelowHead(g: Group, gs: seq<Group>, t: seq<Group>)
    requires NonIncreasing(gs) && gs != [] && g.mean < gs[0].mean
    requires multiset(t) == multiset(gs[1..]) + multiset{g}
    ensures forall y | y in t :: y.mean <= gs[0].mean
  {
    forall y | y in t ensures y.mean <= gs[0].mean {
      assert y in multiset(t);
      if y != g {
        assert y in multiset(gs[1..]);
        var j :| 0 <= j < |gs[1..]| && gs[1..][j] == y;
        assert gs[j + 1] == y;
      }
    }
  }

  function InsertByMean(g: Group, gs: seq<Group>): (r: seq<Group>)
    requires NonIncreasing(gs)
    ensures multiset(r) == multiset(gs) + multiset{g}
    ensures NonIncreasing(r)
  {
    if gs == [] || gs[0].mean <= g.mean then
      assert forall y | y in gs :: y.mean <= g.mean by {
        forall y | y in gs ensures y.mean <= g.mean {
          var j :| 0 <= j < |gs| && gs[j] == y;
        }
      }
      PrependNonIncreasing(g, gs);
      [g] + gs
    else
      assert NonIncreasing(gs[1..]);
      var t := InsertByMean(g, gs[1..]);
      assert gs == [gs[0]] + gs[1..];
      BelowHead(g, gs, t);
      PrependNonIncreasing(gs[0], t);
      [gs[0]] + t
  }

  /** `sort_values(by='Price', ascending=False)`: the same entries, highest
      mean first. */
  function RankByMean(gs: seq<Group>): (r: seq<Group>)
    ensures multiset(r) == multiset(gs)
    ensures NonIncreasing(r)
  {
    if gs == [] then []
    else
      assert gs == [gs[0]] + gs[1..];
      InsertByMean(gs[0], RankByMean(gs[1..]))
  }

  lemma KeysOfConcat(a: seq<Group>, b: seq<Group>)
    ensures KeysOf(a + b) == KeysOf(a) + KeysOf(b)
  {
  }

  lemma RemoveMatching(a: seq<Group>, b: seq<Group>, k: nat)
    requires a != [] && k < |b| && b[k] == a[0]
    requires multiset(a) == multiset(b)
    ensures multiset(a[1..]) == multiset(b[..k] + b[k + 1..])
  {
    var x := a[0];
    assert a == [x] + a[1..];
    assert b == b[..k] + [x] + b[k + 1..];
    calc {
      multiset(a[1..]);
      multiset(a) - multiset{x};
      multiset(b) - multiset{x};
      multiset(b[..k]) + multiset{x} + multiset(b[k + 1..]) - multiset{x};
      multiset(b[..k]) + multiset(b[k + 1..]);
      multiset(b[..k] + b[k + 1..]);
    }
  }

  /** Reordering aggregate entries reorders their keys the same way. */
  lemma {:induction false} KeysOfMultiset(a: seq<Group>, b: seq<Group>)
    requires multiset(a) == multiset(b)
    ensures multiset(KeysOf(a)) == multiset(KeysOf(b))
    decreases |a|
  {
    if a != [] {
      var x := a[0];
      assert x in multiset(b);
      var k :| 0 <= k < |b| && b[k] == x;
      RemoveMatching(a, b, k);
      KeysOfMultiset(a[1..], b[..k] + b[k + 1..]);
      assert a == [x] + a[1..];
      assert b == b[..k] + ([x] + b[k + 1..]);
      KeysOfConcat([x], a[1..]);
      KeysOfConcat(b[..k], [x] + b[k + 1..]);
      KeysOfConcat([x], b[k + 1..]);
      KeysOfConcat(b[..k], b[k + 1..]);
    }
  }

  /** Ranking keeps the set of keys, and keeps them free of duplicates. */
  lemma RankByMeanKeys(gs: seq<Group>)
    ensures forall k :: k in KeysOf(RankByMean(gs)) <==> k in KeysOf(gs)
    ensures NoDuplicates(KeysOf(gs)) ==> NoDuplicates(KeysOf(RankByMean(gs)))
  {
    var r := RankByMean(gs);
    KeysOfMultiset(r, gs);
    forall k ensures k in KeysOf(r) <==> k in KeysOf(gs) {
      assert k in KeysOf(r) <==> k in multiset(KeysOf(r));
      assert k in KeysOf(gs) <==> k in multiset(KeysOf(gs));
    }
    if NoDuplicates(KeysOf(gs)) {
      NoDuplicatesPermuted(KeysOf(gs), KeysOf(r));
    }
  }
}
