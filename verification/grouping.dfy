/**
 `df.groupby(key)[column].sum()` / `.mean()` over a sequence of rows, and
 `.sort_values()` of the summed series.

 pandas returns one bucket per distinct key, with the keys in ascending
 order. A bucket here carries both the sum and the number of rows, so that
 the mean of a bucket is `total / count`.
 */
module Grouping {
  import opened Ordering
  import opened Seqs
  import opened Sums

  /** One bucket of a group-by: its key, the sum of the column over its rows, and how many rows it has. */
  datatype Group<K> = Group(key: K, total: real, count: nat)

  /** Some row has key `k`. */
  predicate Occurs<R, K(==)>(rows: seq<R>, key: R -> K, k: K) {
    exists i :: 0 <= i < |rows| && key(rows[i]) == k
  }

  /** Reference definition: the sum of `val` over the rows whose key is `k`. */
  function SumWhere<R, K(==)>(rows: seq<R>, key: R -> K, val: R -> real, k: K): real
    decreases |rows|
  {
    if |rows| == 0 then 0.0
    else
      var last := rows[|rows| - 1];
      SumWhere(rows[..|rows| - 1], key, val, k) + (if key(last) == k then val(last) else 0.0)
  }

  /** Reference definition: the number of rows whose key is `k`. */
  function CountWhere<R, K(==)>(rows: seq<R>, key: R -> K, k: K): nat
    decreases |rows|
  {
    if |rows| == 0 then 0
    else
      var last := rows[|rows| - 1];
      CountWhere(rows[..|rows| - 1], key, k) + (if key(last) == k then 1 else 0)
  }

  predicate KeysIncreasing<K>(gs: seq<Group<K>>, less: (K, K) -> bool) {
    forall i, j :: 0 <= i < j < |gs| ==> less(gs[i].key, gs[j].key)
  }

  predicate DistinctKeys<K(==)>(gs: seq<Group<K>>) {
    forall i, j :: 0 <= i < j < |gs| ==> gs[i].key != gs[j].key
  }

  predicate CountsPositive<K>(gs: seq<Group<K>>) {
    forall i :: 0 <= i < |gs| ==> gs[i].count > 0
  }

  predicate HasKey<K(==)>(gs: seq<Group<K>>, k: K) {
    exists i :: 0 <= i < |gs| && gs[i].key == k
  }

  /** The sum of the totals of the buckets keyed `k` (at most one when keys are distinct). */
  function TotalOf<K(==)>(gs: seq<Group<K>>, k: K): real {
    if |gs| == 0 then 0.0
    else (if gs[0].key == k then gs[0].total else 0.0) + TotalOf(gs[1..], k)
  }

  function CountOf<K(==)>(gs: seq<Group<K>>, k: K): nat {
    if |gs| == 0 then 0
    else (if gs[0].key == k then gs[0].count else 0) + CountOf(gs[1..], k)
  }

  /** Adds one row with key `k` and value `v` to key-ordered buckets. */
  function Add<K(==,!new)>(gs: seq<Group<K>>, k: K, v: real, less: (K, K) -> bool): (r: seq<Group<K>>)
    requires StrictTotalOrder(less)
    requires KeysIncreasing(gs, less) && CountsPositive(gs)
    ensures KeysIncreasing(r, less) && CountsPositive(r)
    ensures forall i :: 0 <= i < |r| ==> r[i].key == k || HasKey(gs, r[i].key)
    decreases |gs|
  {
    if |gs| == 0 then [Group(k, v, 1)]
    else if gs[0].key == k then [Group(k, gs[0].total + v, gs[0].count + 1)] + gs[1..]
    else if less(k, gs[0].key) then
      var r := [Group(k, v, 1)] + gs;
      assert r[1..] == gs;
      r
    else
      var tail := Add(gs[1..], k, v, less);
      var r := [gs[0]] + tail;
      assert r[1..] == tail;
      assert forall i :: 0 <= i < |tail| ==> less(gs[0].key, tail[i].key) by {
        forall i | 0 <= i < |tail|
          ensures less(gs[0].key, tail[i].key)
        {
          if tail[i].key != k {
            var j :| 0 <= j < |gs[1..]| && gs[1..][j].key == tail[i].key;
            assert gs[j + 1].key == tail[i].key;
          }
        }
      }
      r
  }

  /** The buckets of `rows` in ascending key order (recursion on the last row). */
  function GroupBy<R, K(==,!new)>(rows: seq<R>, key: R -> K, val: R -> real, less: (K, K) -> bool): (gs: seq<Group<K>>)
    requires StrictTotalOrder(less)
    ensures KeysIncreasing(gs, less) && CountsPositive(gs)
    ensures forall k :: TotalOf(gs, k) == SumWhere(rows, key, val, k)
    ensures forall k :: CountOf(gs, k) == CountWhere(rows, key, k)
    decreases |rows|
  {
    if |rows| == 0 then []
    else
      var last := rows[|rows| - 1];
      var gs := GroupBy(rows[..|rows| - 1], key, val, less);
      AddCounts(gs, key(last), val(last), less);
      Add(gs, key(last), val(last), less)
  }

  /** Adding a row raises its key's total by its value and its count by one, and leaves every other key alone. */
  lemma {:induction false} AddCounts<K(!new)>(gs: seq<Group<K>>, k: K, v: real, less: (K, K) -> bool)
    requires StrictTotalOrder(less)
    requires KeysIncreasing(gs, less) && CountsPositive(gs)
    ensures forall k' :: TotalOf(Add(gs, k, v, less), k') == TotalOf(gs, k') + (if k' == k then v else 0.0)
    ensures forall k' :: CountOf(Add(gs, k, v, less), k') == CountOf(gs, k') + (if k' == k then 1 else 0)
    decreases |gs|
  {
    var r := Add(gs, k, v, less);
    if |gs| == 0 {
    } else if gs[0].key == k {
      assert r[1..] == gs[1..];
    } else if less(k, gs[0].key) {
      assert r[1..] == gs;
    } else {
      AddCounts(gs[1..], k, v, less);
      assert r[1..] == Add(gs[1..], k, v, less);
    }
  }

  lemma {:induction false} AbsentKey<K>(gs: seq<Group<K>>, k: K)
    requires !HasKey(gs, k)
    ensures TotalOf(gs, k) == 0.0 && CountOf(gs, k) == 0
    decreases |gs|
  {
    if |gs| > 0 {
      forall j | 0 <= j < |gs[1..]|
        ensures gs[1..][j].key != k
      {
        assert gs[1..][j] == gs[j + 1];
      }
      AbsentKey(gs[1..], k);
    }
  }

  /** With distinct keys, looking a bucket's key up finds exactly that bucket. */
  lemma {:induction false} LookupFindsEntry<K>(gs: seq<Group<K>>, i: nat)
    requires DistinctKeys(gs) && i < |gs|
    ensures TotalOf(gs, gs[i].key) == gs[i].total
    ensures CountOf(gs, gs[i].key) == gs[i].count
    decreases |gs|
  {
    if i == 0 {
      forall j | 0 <= j < |gs[1..]|
        ensures gs[1..][j].key != gs[0].key
      {
        assert gs[1..][j] == gs[j + 1];
      }
      AbsentKey(gs[1..], gs[0].key);
    } else {
      assert gs[1..][i - 1] == gs[i];
      LookupFindsEntry(gs[1..], i - 1);
    }
  }

  lemma {:induction false} CountOfPositive<K>(gs: seq<Group<K>>, k: K)
    requires CountsPositive(gs)
    ensures HasKey(gs, k) <==> CountOf(gs, k) > 0
    decreases |gs|
  {
    if |gs| > 0 {
      CountOfPositive(gs[1..], k);
      if HasKey(gs[1..], k) {
        var i :| 0 <= i < |gs[1..]| && gs[1..][i].key == k;
        assert gs[i + 1].key == k;
      }
      if HasKey(gs, k) && gs[0].key != k {
        var i :| 0 <= i < |gs| && gs[i].key == k;
        assert gs[1..][i - 1].key == k;
      }
    }
  }

  lemma {:induction false} CountWhereOccurs<R, K>(rows: seq<R>, key: R -> K, k: K)
    ensures CountWhere(rows, key, k) > 0 <==> Occurs(rows, key, k)
    decreases |rows|
  {
    if |rows| > 0 {
      var prefix := rows[..|rows| - 1];
      CountWhereOccurs(prefix, key, k);
      if Occurs(prefix, key, k) {
        var i :| 0 <= i < |prefix| && key(prefix[i]) == k;
        assert key(rows[i]) == k;
      }
      if Occurs(rows, key, k) && key(rows[|rows| - 1]) != k {
        var i :| 0 <= i < |rows| && key(rows[i]) == k;
        assert key(prefix[i]) == k;
      }
    }
  }

  lemma IncreasingKeysAreDistinct<K(!new)>(gs: seq<Group<K>>, less: (K, K) -> bool)
    requires StrictTotalOrder(less) && KeysIncreasing(gs, less)
    ensures DistinctKeys(gs)
  {
    forall i, j | 0 <= i < j < |gs|
      ensures gs[i].key != gs[j].key
    {
      assert less(gs[i].key, gs[j].key);
    }
  }

  /** With strictly increasing keys, the first two buckets have different keys. */
  lemma FirstKeysDiffer<K(!new)>(gs: seq<Group<K>>, less: (K, K) -> bool)
    requires StrictTotalOrder(less) && KeysIncreasing(gs, less)
    ensures |gs| >= 2 ==> gs[0].key != gs[1].key
  {
    if |gs| >= 2 {
      assert less(gs[0].key, gs[1].key);
    }
  }

  /**
   `df.groupby(key)[column]` reduced by sum and count: one bucket per
   distinct key, keys strictly ascending, each bucket's total the sum of the
   column over exactly the rows with that key.
   */
  function GroupRows<R, K(==,!new)>(rows: seq<R>, key: R -> K, val: R -> real, less: (K, K) -> bool): (gs: seq<Group<K>>)
    requires StrictTotalOrder(less)
    ensures KeysIncreasing(gs, less) && DistinctKeys(gs)
    ensures forall k :: HasKey(gs, k) <==> Occurs(rows, key, k)
    ensures forall i :: 0 <= i < |gs| ==>
              && gs[i].total == SumWhere(rows, key, val, gs[i].key)
              && gs[i].count == CountWhere(rows, key, gs[i].key)
              && gs[i].count > 0
    ensures |gs| <= |rows|
    ensures |rows| == 0 <==> |gs| == 0
  {
    GroupByFacts(rows, key, val, less);
    GroupBy(rows, key, val, less)
  }

  lemma GroupByFacts<R, K(!new)>(rows: seq<R>, key: R -> K, val: R -> real, less: (K, K) -> bool)
    requires StrictTotalOrder(less)
    ensures var gs := GroupBy(rows, key, val, less);
      && DistinctKeys(gs)
      && (forall k :: HasKey(gs, k) <==> Occurs(rows, key, k))
      && (forall i :: 0 <= i < |gs| ==>
            gs[i].total == SumWhere(rows, key, val, gs[i].key) && gs[i].count == CountWhere(rows, key, gs[i].key))
      && |gs| <= |rows|
      && (|rows| == 0 <==> |gs| == 0)
  {
    var gs := GroupBy(rows, key, val, less);
    IncreasingKeysAreDistinct(gs, less);
    forall k
      ensures HasKey(gs, k) <==> Occurs(rows, key, k)
    {
      CountOfPositive(gs, k);
      CountWhereOccurs(rows, key, k);
    }
    forall i | 0 <= i < |gs|
      ensures gs[i].total == TotalOf(gs, gs[i].key) && gs[i].count == CountOf(gs, gs[i].key)
    {
      LookupFindsEntry(gs, i);
    }
    GroupCountBound(rows, key, val, less);
    if |rows| > 0 {
      assert Occurs(rows, key, key(rows[0]));
      assert HasKey(gs, key(rows[0]));
    }
  }

  /** There are never more buckets than rows. */
  lemma {:induction false} GroupCountBound<R, K(!new)>(rows: seq<R>, key: R -> K, val: R -> real, less: (K, K) -> bool)
    requires StrictTotalOrder(less)
    ensures |GroupBy(rows, key, val, less)| <= |rows|
    decreases |rows|
  {
    if |rows| > 0 {
      GroupCountBound(rows[..|rows| - 1], key, val, less);
      AddGrowsByAtMostOne(GroupBy(rows[..|rows| - 1], key, val, less), key(rows[|rows| - 1]), val(rows[|rows| - 1]), less);
    }
  }

  lemma {:induction false} AddGrowsByAtMostOne<K(!new)>(gs: seq<Group<K>>, k: K, v: real, less: (K, K) -> bool)
    requires StrictTotalOrder(less)
    requires KeysIncreasing(gs, less) && CountsPositive(gs)
    ensures |Add(gs, k, v, less)| <= |gs| + 1
    decreases |gs|
  {
    if |gs| > 0 && gs[0].key != k && !less(k, gs[0].key) {
      AddGrowsByAtMostOne(gs[1..], k, v, less);
    }
  }

  /** The keys of the buckets, in bucket order. */
  function Keys<K>(gs: seq<Group<K>>): (ks: seq<K>)
    ensures |ks| == |gs|
    ensures forall i :: 0 <= i < |gs| ==> ks[i] == gs[i].key
  {
    seq(|gs|, i requires 0 <= i < |gs| => gs[i].key)
  }

  // ---------------------------------------------------------------------------
  // `.sort_values()`: buckets by ascending total

  predicate SortedByTotal<K>(gs: seq<Group<K>>) {
    forall i, j :: 0 <= i < j < |gs| ==> gs[i].total <= gs[j].total
  }

  function InsertByTotal<K(==,!new)>(g: Group<K>, gs: seq<Group<K>>): (r: seq<Group<K>>)
    requires SortedByTotal(gs)
    ensures SortedByTotal(r)
    ensures forall x :: x in r <==> x == g || x in gs
    decreases |gs|
  {
    if |gs| == 0 || g.total <= gs[0].total then
      var r := [g] + gs;
      assert r[1..] == gs;
      r
    else
      var tail := InsertByTotal(g, gs[1..]);
      var r := [gs[0]] + tail;
      assert r[1..] == tail;
      assert forall i :: 0 <= i < |tail| ==> gs[0].total <= tail[i].total by {
        forall i | 0 <= i < |tail|
          ensures gs[0].total <= tail[i].total
        {
          assert tail[i] in tail;
          if tail[i] != g {
            var j :| 0 <= j < |gs[1..]| && gs[1..][j] == tail[i];
            assert gs[j + 1] == tail[i];
          }
        }
      }
      r
  }

  /** Inserting a bucket with a new key keeps the keys distinct. */
  lemma {:induction false} InsertKeepsKeysDistinct<K(!new)>(g: Group<K>, gs: seq<Group<K>>)
    requires SortedByTotal(gs) && DistinctKeys(gs) && !HasKey(gs, g.key)
    ensures DistinctKeys(InsertByTotal(g, gs))
    decreases |gs|
  {
    if |gs| > 0 && g.total > gs[0].total {
      var tail := InsertByTotal(g, gs[1..]);
      forall j | 0 <= j < |gs[1..]|
        ensures gs[1..][j].key != g.key
      {
        assert gs[1..][j] == gs[j + 1];
      }
      InsertKeepsKeysDistinct(g, gs[1..]);
      forall i | 0 <= i < |tail|
        ensures tail[i].key != gs[0].key
      {
        assert tail[i] in tail;
        if tail[i] != g {
          var j :| 0 <= j < |gs[1..]| && gs[1..][j] == tail[i];
          assert gs[j + 1] == tail[i];
        }
      }
      var r := InsertByTotal(g, gs);
      assert r == [gs[0]] + tail;
    }
  }

  /** Insertion adds exactly the one bucket. */
  lemma {:induction false} InsertPermutes<K(!new)>(g: Group<K>, gs: seq<Group<K>>)
    requires SortedByTotal(gs)
    ensures multiset(InsertByTotal(g, gs)) == multiset(gs) + multiset{g}
    decreases |gs|
  {
    if |gs| > 0 && g.total > gs[0].total {
      InsertPermutes(g, gs[1..]);
      assert gs == [gs[0]] + gs[1..];
    }
  }

  /** `.sort_values()` on a bucket series: a stable insertion sort by total. */
  function SortByTotal<K(==,!new)>(gs: seq<Group<K>>): (r: seq<Group<K>>)
    ensures SortedByTotal(r)
    ensures multiset(r) == multiset(gs)
    ensures forall x :: x in r <==> x in gs
    decreases |gs|
  {
    if |gs| == 0 then []
    else
      assert gs == [gs[0]] + gs[1..];
      InsertPermutes(gs[0], SortByTotal(gs[1..]));
      InsertByTotal(gs[0], SortByTotal(gs[1..]))
  }

  /** Sorting by total keeps the keys distinct. */
  lemma {:induction false} SortKeepsKeysDistinct<K(!new)>(gs: seq<Group<K>>)
    requires DistinctKeys(gs)
    ensures DistinctKeys(SortByTotal(gs))
    decreases |gs|
  {
    if |gs| > 0 {
      var tail := SortByTotal(gs[1..]);
      SortKeepsKeysDistinct(gs[1..]);
      forall i | 0 <= i < |tail|
        ensures tail[i].key != gs[0].key
      {
        assert tail[i] in gs[1..];
        var j :| 0 <= j < |gs[1..]| && gs[1..][j] == tail[i];
        assert gs[j + 1] == tail[i];
      }
      InsertKeepsKeysDistinct(gs[0], tail);
    }
  }

  /** Sorting moves buckets but neither adds nor drops one, so every key is still there. */
  lemma SortKeepsBuckets<K(!new)>(gs: seq<Group<K>>)
    ensures forall i :: 0 <= i < |SortByTotal(gs)| ==> SortByTotal(gs)[i] in gs
    ensures forall k :: HasKey(SortByTotal(gs), k) <==> HasKey(gs, k)
  {
    var sorted := SortByTotal(gs);
    forall k
      ensures HasKey(sorted, k) <==> HasKey(gs, k)
    {
      if HasKey(sorted, k) {
        var i :| 0 <= i < |sorted| && sorted[i].key == k;
        assert sorted[i] in gs;
      }
      if HasKey(gs, k) {
        var i :| 0 <= i < |gs| && gs[i].key == k;
        assert gs[i] in sorted;
      }
    }
  }

  // ---------------------------------------------------------------------------
  // Conservation: the buckets add up to the whole column

  /** The sum of the bucket totals. */
  function GroupsTotal<K>(gs: seq<Group<K>>): real {
    if |gs| == 0 then 0.0 else gs[0].total + GroupsTotal(gs[1..])
  }

  lemma {:induction false} AddGrowsTotal<K(!new)>(gs: seq<Group<K>>, k: K, v: real, less: (K, K) -> bool)
    requires StrictTotalOrder(less)
    requires KeysIncreasing(gs, less) && CountsPositive(gs)
    ensures GroupsTotal(Add(gs, k, v, less)) == GroupsTotal(gs) + v
    decreases |gs|
  {
    var r := Add(gs, k, v, less);
    if |gs| == 0 {
    } else if gs[0].key == k {
      assert r[1..] == gs[1..];
    } else if less(k, gs[0].key) {
      assert r[1..] == gs;
    } else {
      AddGrowsTotal(gs[1..], k, v, less);
      assert r[1..] == Add(gs[1..], k, v, less);
    }
  }

  /** Grouping neither loses nor invents value: the bucket totals add up to the column sum. */
  lemma {:induction false} GroupRowsConservesTotal<R, K(!new)>(rows: seq<R>, key: R -> K, val: R -> real, less: (K, K) -> bool)
    requires StrictTotalOrder(less)
    ensures GroupsTotal(GroupRows(rows, key, val, less)) == Sum(Map(rows, val))
    decreases |rows|
  {
    if |rows| > 0 {
      var p := rows[..|rows| - 1];
      var last := rows[|rows| - 1];
      GroupRowsConservesTotal(p, key, val, less);
      AddGrowsTotal(GroupBy(p, key, val, less), key(last), val(last), less);
      assert Map(rows, val)[..|rows| - 1] == Map(p, val);
    }
  }

  lemma {:induction false} InsertGrowsTotal<K(!new)>(g: Group<K>, gs: seq<Group<K>>)
    requires SortedByTotal(gs)
    ensures GroupsTotal(InsertByTotal(g, gs)) == g.total + GroupsTotal(gs)
    decreases |gs|
  {
    var r := InsertByTotal(g, gs);
    if |gs| == 0 || g.total <= gs[0].total {
      assert r[1..] == gs;
    } else {
      InsertGrowsTotal(g, gs[1..]);
      assert r[1..] == InsertByTotal(g, gs[1..]);
    }
  }

  /** Sorting keeps the sum of the totals. */
  lemma {:induction false} SortKeepsTotal<K(!new)>(gs: seq<Group<K>>)
    ensures GroupsTotal(SortByTotal(gs)) == GroupsTotal(gs)
    decreases |gs|
  {
    if |gs| > 0 {
      SortKeepsTotal(gs[1..]);
      InsertGrowsTotal(gs[0], SortByTotal(gs[1..]));
    }
  }

  /** When every value lies in [lo, hi], a key's sum lies between count·lo and count·hi. */
  lemma {:induction false} SumWhereBounds<R, K>(rows: seq<R>, key: R -> K, val: R -> real, k: K, lo: real, hi: real)
    requires forall i :: 0 <= i < |rows| ==> lo <= val(rows[i]) <= hi
    ensures Times(lo, CountWhere(rows, key, k) as real) <= SumWhere(rows, key, val, k)
    ensures SumWhere(rows, key, val, k) <= Times(hi, CountWhere(rows, key, k) as real)
    decreases |rows|
  {
    if |rows| > 0 {
      var p := rows[..|rows| - 1];
      SumWhereBounds(p, key, val, k, lo, hi);
      if key(rows[|rows| - 1]) == k {
        assert CountWhere(rows, key, k) as real == CountWhere(p, key, k) as real + 1.0;
        TimesDistributes(lo, CountWhere(p, key, k) as real, 1.0);
        TimesDistributes(hi, CountWhere(p, key, k) as real, 1.0);
      }
    }
  }
}
