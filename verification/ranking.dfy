/** The final ordering of the leaderboard: a stable sort of the entries by total, largest first,
    as `Array.prototype.sort` does with the comparator `(a, b) => b.total - a.total`. */
module Ranking {
  import opened Seqs
  import opened Types

  /** Totals never increase along the list. */
  predicate SortedByTotal(s: seq<Entry>)
  {
    forall i, j :: 0 <= i < j < |s| ==> s[i].total >= s[j].total
  }

  /** The test "has total `t`", as a function value so that every use names the same predicate. */
  function HasTotal(t: int): Entry -> bool
  {
    (e: Entry) => e.total == t
  }

  /** The entries whose total is `t`, in list order: one tie class. */
  function TiesOf(s: seq<Entry>, t: int): seq<Entry>
  {
    Filter(s, HasTotal(t))
  }

  /** Inserts `x` after every entry whose total is at least `x.total`. */
  function InsertByTotal(sorted: seq<Entry>, x: Entry): seq<Entry>
  {
    if |sorted| == 0 then [x]
    else if sorted[0].total >= x.total then [sorted[0]] + InsertByTotal(sorted[1..], x)
    else [x] + sorted
  }

  /** The stable descending sort of `processChartData`: the result is ordered by total, holds the same
      entries, and keeps every tie class in its original order. */
  function SortByTotal(s: seq<Entry>): (r: seq<Entry>)
    ensures SortedByTotal(r)
    ensures multiset(r) == multiset(s)
    ensures forall t :: TiesOf(r, t) == TiesOf(s, t)
  {
    if |s| == 0 then []
    else
      var init, last := s[..|s| - 1], s[|s| - 1];
      var sorted := SortByTotal(init);
      SortStep(s, sorted);
      InsertByTotal(sorted, last)
  }

  /** One step of the sort: inserting the last element into the sorted rest sorts the whole list. */
  lemma SortStep(s: seq<Entry>, sorted: seq<Entry>)
    requires |s| > 0
    requires SortedByTotal(sorted)
    requires multiset(sorted) == multiset(s[..|s| - 1])
    requires forall t :: TiesOf(sorted, t) == TiesOf(s[..|s| - 1], t)
    ensures SortedByTotal(InsertByTotal(sorted, s[|s| - 1]))
    ensures multiset(InsertByTotal(sorted, s[|s| - 1])) == multiset(s)
    ensures forall t :: TiesOf(InsertByTotal(sorted, s[|s| - 1]), t) == TiesOf(s, t)
  {
    var init, last := s[..|s| - 1], s[|s| - 1];
    InsertByTotalSpec(sorted, last);
    assert s == init + [last];
    forall t ensures TiesOf(s, t) == TiesOf(init, t) + TiesOf([last], t) {
      FilterConcat(init, [last], HasTotal(t));
    }
  }

  /** Inserting into a sorted list keeps it sorted, adds exactly `x`, and puts `x` behind its ties. */
  lemma InsertByTotalSpec(sorted: seq<Entry>, x: Entry)
    requires SortedByTotal(sorted)
    ensures SortedByTotal(InsertByTotal(sorted, x))
    ensures multiset(InsertByTotal(sorted, x)) == multiset(sorted) + multiset{x}
    ensures forall t :: TiesOf(InsertByTotal(sorted, x), t) == TiesOf(sorted, t) + TiesOf([x], t)
  {
    InsertKeepsOrder(sorted, x);
    InsertKeepsElements(sorted, x);
    forall t ensures TiesOf(InsertByTotal(sorted, x), t) == TiesOf(sorted, t) + TiesOf([x], t) {
      InsertKeepsTies(sorted, x, t);
    }
  }

  lemma {:induction false} InsertKeepsOrder(sorted: seq<Entry>, x: Entry)
    requires SortedByTotal(sorted)
    ensures |InsertByTotal(sorted, x)| == |sorted| + 1
    ensures InsertByTotal(sorted, x)[0] == if |sorted| == 0 || sorted[0].total < x.total then x else sorted[0]
    ensures SortedByTotal(InsertByTotal(sorted, x))
  {
    if |sorted| > 0 && sorted[0].total >= x.total {
      var rest := sorted[1..];
      InsertKeepsOrder(rest, x);
      var r' := InsertByTotal(rest, x);
      var r := [sorted[0]] + r';
      assert r'[0].total <= sorted[0].total;
      forall i, j | 0 <= i < j < |r| ensures r[i].total >= r[j].total {
        if i > 0 {
          assert r[i] == r'[i - 1] && r[j] == r'[j - 1];
        } else {
          assert r'[0].total >= r'[j - 1].total;
        }
      }
    }
  }

  lemma {:induction false} InsertKeepsElements(sorted: seq<Entry>, x: Entry)
    ensures multiset(InsertByTotal(sorted, x)) == multiset(sorted) + multiset{x}
  {
    if |sorted| > 0 && sorted[0].total >= x.total {
      InsertKeepsElements(sorted[1..], x);
      assert sorted == [sorted[0]] + sorted[1..];
    }
  }

  lemma {:induction false} InsertKeepsTies(sorted: seq<Entry>, x: Entry, t: int)
    requires SortedByTotal(sorted)
    ensures TiesOf(InsertByTotal(sorted, x), t) == TiesOf(sorted, t) + TiesOf([x], t)
  {
    if |sorted| == 0 {
    } else if sorted[0].total >= x.total {
      var rest := sorted[1..];
      InsertKeepsTies(rest, x, t);
      assert sorted == [sorted[0]] + rest;
      FilterConcat([sorted[0]], InsertByTotal(rest, x), HasTotal(t));
      FilterConcat([sorted[0]], rest, HasTotal(t));
    } else {
      FilterConcat([x], sorted, HasTotal(t));
      if t == x.total {
        NoTies(sorted, t);
      }
    }
  }

  /** A list whose totals are all below `t` has no entry tied at `t`. */
  lemma {:induction false} NoTies(s: seq<Entry>, t: int)
    requires forall k :: 0 <= k < |s| ==> s[k].total < t
    ensures TiesOf(s, t) == []
  {
    if |s| > 0 {
      NoTies(s[1..], t);
    }
  }

  /** Sorting keeps the sum of the totals. */
  lemma {:induction false} SortKeepsSum(s: seq<Entry>)
    ensures SumTotals(SortByTotal(s)) == SumTotals(s)
  {
    if |s| > 0 {
      var init, last := s[..|s| - 1], s[|s| - 1];
      SortKeepsSum(init);
      InsertKeepsSum(SortByTotal(init), last);
    }
  }

  lemma {:induction false} InsertKeepsSum(sorted: seq<Entry>, x: Entry)
    ensures SumTotals(InsertByTotal(sorted, x)) == SumTotals(sorted) + x.total
  {
    if |sorted| == 0 {
    } else if sorted[0].total >= x.total {
      InsertKeepsSum(sorted[1..], x);
      SumTotalsConcat([sorted[0]], InsertByTotal(sorted[1..], x));
      SumTotalsConcat([sorted[0]], sorted[1..]);
      assert sorted == [sorted[0]] + sorted[1..];
    } else {
      SumTotalsConcat([x], sorted);
    }
  }

  /** Sorting keeps account ids pairwise distinct. */
  lemma {:induction false} SortKeepsKeysUnique(s: seq<Entry>)
    requires UniqueKeys(s)
    ensures UniqueKeys(SortByTotal(s))
  {
    if |s| > 0 {
      var init, last := s[..|s| - 1], s[|s| - 1];
      SortKeepsKeysUnique(init);
      var sorted := SortByTotal(init);
      forall k | 0 <= k < |sorted| ensures sorted[k].accountIdHex != last.accountIdHex {
        assert sorted[k] in multiset(init);
        var m :| 0 <= m < |init| && init[m] == sorted[k];
        assert init[m] == s[m];
      }
      InsertKeepsKeysUnique(sorted, last);
    }
  }

  lemma {:induction false} InsertKeepsKeysUnique(sorted: seq<Entry>, x: Entry)
    requires UniqueKeys(sorted)
    requires forall k :: 0 <= k < |sorted| ==> sorted[k].accountIdHex != x.accountIdHex
    ensures UniqueKeys(InsertByTotal(sorted, x))
  {
    if |sorted| > 0 && sorted[0].total >= x.total {
      var rest := sorted[1..];
      assert UniqueKeys(rest) by {
        forall i, j | 0 <= i < j < |rest| ensures rest[i].accountIdHex != rest[j].accountIdHex {
          assert rest[i] == sorted[i + 1] && rest[j] == sorted[j + 1];
        }
      }
      InsertKeepsKeysUnique(rest, x);
      InsertKeepsElements(rest, x);
      var r' := InsertByTotal(rest, x);
      forall k | 0 <= k < |r'| ensures r'[k].accountIdHex != sorted[0].accountIdHex {
        assert r'[k] in multiset(rest) + multiset{x};
        if r'[k] in multiset(rest) {
          var m :| 0 <= m < |rest| && rest[m] == r'[k];
          assert rest[m] == sorted[m + 1];
        }
      }
      KeysUniqueCons(sorted[0], r');
    } else if |sorted| > 0 {
      KeysUniqueCons(x, sorted);
    }
  }

  /** Putting an entry with a fresh key in front keeps keys distinct. */
  lemma KeysUniqueCons(e: Entry, s: seq<Entry>)
    requires UniqueKeys(s)
    requires forall k :: 0 <= k < |s| ==> s[k].accountIdHex != e.accountIdHex
    ensures UniqueKeys([e] + s)
  {
    var r := [e] + s;
    forall i, j | 0 <= i < j < |r| ensures r[i].accountIdHex != r[j].accountIdHex {
      assert r[j] == s[j - 1];
      if i > 0 {
        assert r[i] == s[i - 1];
      }
    }
  }
}
