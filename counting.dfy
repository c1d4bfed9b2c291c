/**
 * Count tables as the dashboard builds them with pandas:
 *   `groupby(key)[column].count()`  -- one group per distinct non-missing key,
 *                                      counting the group's non-missing cells of `column`;
 *   `groupby(key).size()`           -- the same, counting every row of the group;
 *   `value_counts()`                -- `size()` ordered by decreasing count;
 *   `sort_values(ascending=False)`  -- reorder by decreasing count;
 *   `head(n)`                       -- the first n entries.
 * A table is fed a sequence of rows projected onto (group key, whether the
 * counted cell is present).
 */
module Counting {
  import opened Wrappers
  import opened Seqs

  /** One entry of a count table (one bar of a chart). */
  datatype Tally<K> = Tally(key: K, count: nat)

  /** Rows projected onto their group key and whether the counted cell is present. */
  type Rows<K> = seq<(Option<K>, bool)>

  /** The group-key column of the projected rows. */
  function Keys<K>(rows: Rows<K>): seq<Option<K>> {
    seq(|rows|, i requires 0 <= i < |rows| => rows[i].0)
  }

  /** The rows of group `k` whose counted cell is present. */
  function CountIn<K(==)>(rows: Rows<K>, k: K): nat {
    if rows == [] then 0
    else (if rows[0].0 == Some(k) && rows[0].1 then 1 else 0) + CountIn(rows[1..], k)
  }

  /** The rows that some group counts: key present and counted cell present. */
  function Counted<K>(rows: Rows<K>): nat {
    if rows == [] then 0
    else (if rows[0].0.Some? && rows[0].1 then 1 else 0) + Counted(rows[1..])
  }

  function Sum<K>(ts: seq<Tally<K>>): nat {
    if ts == [] then 0 else ts[0].count + Sum(ts[1..])
  }

  /** No key has two entries. */
  ghost predicate DistinctKeys<K>(ts: seq<Tally<K>>) {
    forall i, j :: 0 <= i < j < |ts| ==> ts[i].key != ts[j].key
  }

  predicate IsDescending<K>(ts: seq<Tally<K>>) {
    forall i, j :: 0 <= i < j < |ts| ==> ts[i].count >= ts[j].count
  }

  /**
   * What a `groupby(key)[column].count()` table is, in any order:
   * one entry per distinct present key, holding that key's count.
   */
  ghost predicate IsGroupCount<K(!new)>(ts: seq<Tally<K>>, rows: Rows<K>) {
    && DistinctKeys(ts)
    && (forall t :: t in ts ==> Some(t.key) in Keys(rows) && t.count == CountIn(rows, t.key))
    && (forall i :: 0 <= i < |rows| && rows[i].0.Some? ==>
          exists t :: t in ts && t.key == rows[i].0.value)
  }

  // ---------------------------------------------------------------- grouping

  function Tallies<K(==)>(ks: seq<K>, rows: Rows<K>): (r: seq<Tally<K>>)
    ensures |r| == |ks|
    ensures forall i :: 0 <= i < |ks| ==> r[i] == Tally(ks[i], CountIn(rows, ks[i]))
  {
    if ks == [] then [] else [Tally(ks[0], CountIn(rows, ks[0]))] + Tallies(ks[1..], rows)
  }

  /** `groupby(key)[column].count()` before sorting, groups in order of first appearance. */
  function GroupCountBy<K(==,!new)>(rows: Rows<K>): (r: seq<Tally<K>>)
    ensures IsGroupCount(r, rows)
    ensures Sum(r) == Counted(rows)
  {
    var ks := Distinct(Present(Keys(rows)));
    var r := Tallies(ks, rows);
    KeysCovered(rows);
    assert forall i :: 0 <= i < |rows| && rows[i].0.Some? ==> r[FirstIndex(ks, rows[i].0.value)] in r;
    TalliesSum(ks, rows);
    r
  }

  lemma KeysCovered<K(!new)>(rows: Rows<K>)
    ensures forall i :: 0 <= i < |rows| && rows[i].0.Some? ==> rows[i].0.value in Distinct(Present(Keys(rows)))
  {
    forall i | 0 <= i < |rows| && rows[i].0.Some?
      ensures rows[i].0.value in Distinct(Present(Keys(rows)))
    {
      assert Keys(rows)[i] == rows[i].0;
    }
  }

  /** How many keys of `ks` row `x` is counted under. */
  function Hits<K(==)>(ks: seq<K>, x: (Option<K>, bool)): nat {
    if ks == [] then 0
    else (if x.0 == Some(ks[0]) && x.1 then 1 else 0) + Hits(ks[1..], x)
  }

  lemma {:induction false} HitsOfDistinct<K>(ks: seq<K>, x: (Option<K>, bool))
    requires NoDup(ks)
    ensures Hits(ks, x) == if x.0.Some? && x.1 && x.0.value in ks then 1 else 0
  {
    if ks != [] {
      assert NoDup(ks[1..]) by {
        forall i, j | 0 <= i < j < |ks[1..]| ensures ks[1..][i] != ks[1..][j] {
          assert ks[1..][i] == ks[i + 1] && ks[1..][j] == ks[j + 1];
        }
      }
      HitsOfDistinct(ks[1..], x);
      if x.0 == Some(ks[0]) {
        assert forall i :: 0 <= i < |ks[1..]| ==> ks[1..][i] == ks[i + 1];
        assert ks[0] !in ks[1..];
      }
      assert x.0.Some? && x.0.value in ks ==> x.0.value == ks[0] || x.0.value in ks[1..];
    }
  }

  lemma {:induction false} TalliesFirstRow<K>(ks: seq<K>, rows: Rows<K>)
    requires rows != []
    ensures Sum(Tallies(ks, rows)) == Sum(Tallies(ks, rows[1..])) + Hits(ks, rows[0])
  {
    if ks != [] {
      TalliesFirstRow(ks[1..], rows);
    }
  }

  /** Counting under a list of distinct keys covering every present key counts each counted row once. */
  lemma {:induction false} TalliesSum<K>(ks: seq<K>, rows: Rows<K>)
    requires NoDup(ks)
    requires forall i :: 0 <= i < |rows| && rows[i].0.Some? ==> rows[i].0.value in ks
    ensures Sum(Tallies(ks, rows)) == Counted(rows)
  {
    if rows == [] {
      TalliesOfNoRows(ks);
    } else {
      TalliesFirstRow(ks, rows);
      HitsOfDistinct(ks, rows[0]);
      assert forall i :: 0 <= i < |rows[1..]| ==> rows[1..][i] == rows[i + 1];
      TalliesSum(ks, rows[1..]);
    }
  }

  lemma {:induction false} TalliesOfNoRows<K>(ks: seq<K>)
    ensures Sum(Tallies(ks, [])) == 0
  {
    if ks != [] {
      TalliesOfNoRows(ks[1..]);
    }
  }

  // ---------------------------------------------------------------- sorting

  /** Place `t` before the first entry whose count does not exceed its own. */
  function Insert<K>(t: Tally<K>, ts: seq<Tally<K>>): seq<Tally<K>> {
    if ts == [] || ts[0].count <= t.count then [t] + ts
    else [ts[0]] + Insert(t, ts[1..])
  }

  lemma {:induction false} InsertPermutes<K>(t: Tally<K>, ts: seq<Tally<K>>)
    ensures multiset(Insert(t, ts)) == multiset(ts) + multiset{t}
    ensures Sum(Insert(t, ts)) == t.count + Sum(ts)
  {
    if ts != [] && ts[0].count > t.count {
      assert ts == [ts[0]] + ts[1..];
      InsertPermutes(t, ts[1..]);
    }
  }

  lemma {:induction false} InsertElements<K>(t: Tally<K>, ts: seq<Tally<K>>)
    ensures forall u :: u in Insert(t, ts) ==> u == t || u in ts
  {
    if ts != [] && ts[0].count > t.count {
      InsertElements(t, ts[1..]);
    }
  }

  lemma HeadIsLargest<K>(ts: seq<Tally<K>>)
    requires ts != [] && IsDescending(ts)
    ensures forall u :: u in ts ==> u.count <= ts[0].count
  {
    forall u | u in ts ensures u.count <= ts[0].count {
      var k :| 0 <= k < |ts| && ts[k] == u;
    }
  }

  lemma HeadKeyUnique<K>(ts: seq<Tally<K>>)
    requires ts != [] && DistinctKeys(ts)
    ensures forall u :: u in ts[1..] ==> u.key != ts[0].key
  {
    forall u | u in ts[1..] ensures u.key != ts[0].key {
      var k :| 0 <= k < |ts[1..]| && ts[1..][k] == u;
      assert u == ts[k + 1];
    }
  }

  lemma {:induction false} InsertDescending<K>(t: Tally<K>, ts: seq<Tally<K>>)
    requires IsDescending(ts)
    ensures IsDescending(Insert(t, ts))
  {
    if ts != [] && ts[0].count > t.count {
      var rest := ts[1..];
      HeadIsLargest(ts);
      assert IsDescending(rest);
      InsertDescending(t, rest);
      InsertElements(t, rest);
      assert forall u :: u in rest ==> u in ts;
      ConsDescending(ts[0], Insert(t, rest));
    } else {
      ConsDescending(t, ts);
    }
  }

  lemma {:induction false} InsertDistinctKeys<K>(t: Tally<K>, ts: seq<Tally<K>>)
    requires DistinctKeys(ts)
    requires forall u :: u in ts ==> u.key != t.key
    ensures DistinctKeys(Insert(t, ts))
  {
    if ts != [] && ts[0].count > t.count {
      var rest := ts[1..];
      assert DistinctKeys(rest);
      assert forall u :: u in rest ==> u in ts;
      InsertDistinctKeys(t, rest);
      InsertElements(t, rest);
      HeadKeyUnique(ts);
      ConsDistinctKeys(ts[0], Insert(t, rest));
    } else {
      ConsDistinctKeys(t, ts);
    }
  }

  lemma ConsDistinctKeys<K>(x: Tally<K>, ts: seq<Tally<K>>)
    requires DistinctKeys(ts)
    requires forall u :: u in ts ==> u.key != x.key
    ensures DistinctKeys([x] + ts)
  {
    var r := [x] + ts;
    forall i, j | 0 <= i < j < |r| ensures r[i].key != r[j].key {
      assert r[j] == ts[j - 1] && ts[j - 1] in ts;
      if i > 0 {
        assert r[i] == ts[i - 1];
      }
    }
  }

  lemma ConsDescending<K>(x: Tally<K>, ts: seq<Tally<K>>)
    requires IsDescending(ts)
    requires forall u :: u in ts ==> u.count <= x.count
    ensures IsDescending([x] + ts)
  {
    var r := [x] + ts;
    forall i, j | 0 <= i < j < |r| ensures r[i].count >= r[j].count {
      assert r[j] == ts[j - 1] && ts[j - 1] in ts;
      if i > 0 {
        assert r[i] == ts[i - 1];
      }
    }
  }

  /**
   * `sort_values(ascending=False)`: the same entries by decreasing count.
   * Ties are broken by input order here; pandas does not fix their order.
   */
  function Descending<K>(ts: seq<Tally<K>>): (r: seq<Tally<K>>)
    ensures multiset(r) == multiset(ts)
    ensures IsDescending(r)
    ensures Sum(r) == Sum(ts)
  {
    if ts == [] then []
    else
      assert ts == [ts[0]] + ts[1..];
      var sorted := Descending(ts[1..]);
      InsertPermutes(ts[0], sorted);
      InsertDescending(ts[0], sorted);
      Insert(ts[0], sorted)
  }

  /** Sorting never makes two entries share a key. */
  lemma {:induction false} DescendingKeepsKeysDistinct<K>(ts: seq<Tally<K>>)
    requires DistinctKeys(ts)
    ensures DistinctKeys(Descending(ts))
  {
    if ts != [] {
      var rest := ts[1..];
      assert ts == [ts[0]] + rest;
      var sorted := Descending(rest);
      DescendingKeepsKeysDistinct(rest);
      forall u | u in sorted ensures u.key != ts[0].key {
        assert u in multiset(rest);
      }
      InsertDistinctKeys(ts[0], sorted);
    }
  }

  /** `groupby(key)[column].count().sort_values(ascending=False)`. */
  function GroupCount<K(==,!new)>(rows: Rows<K>): (r: seq<Tally<K>>)
    ensures IsGroupCount(r, rows)
    ensures IsDescending(r)
    ensures Sum(r) == Counted(rows)
  {
    var u := GroupCountBy(rows);
    var r := Descending(u);
    DescendingKeepsKeysDistinct(u);
    assert forall t :: t in r <==> t in u by {
      forall t ensures t in r <==> t in u {
        assert t in r <==> t in multiset(r);
      }
    }
    r
  }

  // ---------------------------------------------------- size and value_counts

  /** Rows projected so that every row with a present key is counted. */
  function AllCounted<K>(keys: seq<Option<K>>): Rows<K> {
    seq(|keys|, i requires 0 <= i < |keys| => (keys[i], true))
  }

  lemma {:induction false} AllCountedCountIn<K>(keys: seq<Option<K>>, k: K)
    ensures CountIn(AllCounted(keys), k) == multiset(keys)[Some(k)]
  {
    if keys != [] {
      assert keys == [keys[0]] + keys[1..];
      assert AllCounted(keys)[1..] == AllCounted(keys[1..]);
      AllCountedCountIn(keys[1..], k);
    }
  }

  lemma {:induction false} AllCountedTotal<K(!new)>(keys: seq<Option<K>>)
    ensures Counted(AllCounted(keys)) == |Present(keys)|
  {
    if keys != [] {
      assert AllCounted(keys)[1..] == AllCounted(keys[1..]);
      AllCountedTotal(keys[1..]);
    }
  }

  /**
   * `groupby(key).size()`: the number of rows of each distinct present key.
   * Groups are listed in order of first appearance here (pandas lists them by key).
   */
  function GroupSize<K(==,!new)>(keys: seq<Option<K>>): (r: seq<Tally<K>>)
    ensures DistinctKeys(r)
    ensures forall t :: t in r ==> t.count == multiset(keys)[Some(t.key)] && t.count >= 1
    ensures forall i :: 0 <= i < |keys| && keys[i].Some? ==> exists t :: t in r && t.key == keys[i].value
    ensures Sum(r) == |Present(keys)|
  {
    var rows := AllCounted(keys);
    assert Keys(rows) == keys;
    var r := GroupCountBy(rows);
    forall t | t in r ensures t.count == multiset(keys)[Some(t.key)] {
      AllCountedCountIn(keys, t.key);
    }
    AllCountedTotal(keys);
    r
  }

  /** `value_counts()`: occurrences of each distinct present value, by decreasing count. */
  function ValueCounts<K(==,!new)>(values: seq<Option<K>>): (r: seq<Tally<K>>)
    ensures DistinctKeys(r) && IsDescending(r)
    ensures forall t :: t in r ==> t.count == multiset(values)[Some(t.key)] && t.count >= 1
    ensures forall i :: 0 <= i < |values| && values[i].Some? ==> exists t :: t in r && t.key == values[i].value
    ensures Sum(r) == |Present(values)|
  {
    var u := GroupSize(values);
    var r := Descending(u);
    DescendingKeepsKeysDistinct(u);
    assert forall t :: t in r <==> t in u by {
      forall t ensures t in r <==> t in u {
        assert t in r <==> t in multiset(r);
      }
    }
    r
  }

  // -------------------------------------------------------------------- head

  /** `head(n)`: the first n entries, or all of them when there are fewer. */
  function Top<K>(ts: seq<Tally<K>>, n: nat): (r: seq<Tally<K>>)
    ensures |r| == if |ts| < n then |ts| else n
    ensures r == ts[..|r|]
    ensures IsDescending(ts) ==> forall i, j :: 0 <= i < |r| <= j < |ts| ==> ts[j].count <= r[i].count
  {
    if |ts| <= n then ts else ts[..n]
  }

  /** A prefix of a descending table dominates every entry left out of it. */
  lemma TopDominates<K>(all: seq<Tally<K>>, r: seq<Tally<K>>)
    requires IsDescending(all)
    requires r <= all
    ensures forall t, u :: t in r && u in all && u !in r ==> u.count <= t.count
  {
  }
}
