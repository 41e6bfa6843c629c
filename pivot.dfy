/**
 * The table builder of `save_to_csv`: `df["location"].unique()`, then
 * `pivot_table(index="time", columns="location", values="precip", aggfunc="mean")`,
 * then `reindex(columns=location_order)`.
 * A missing (NaN) value is None. With pandas' default `dropna=True` a (time, location)
 * group whose values are all NaN is dropped before unstacking, so a time survives as a
 * row only if some location has a value at it; an all-NaN location column is dropped
 * by the pivot but comes back, empty, through the reindex.
 */
module Pivot {
  import opened Wrappers
  import opened TimeWindow

  /** One row of `to_dataframe()`: the time index, the location coordinate and `precip`. */
  datatype Record = Record(time: int, location: string, value: Option<real>)

  /** The pivoted frame: row labels (times), column labels (locations), cells[row][column]. */
  datatype Table = Table(index: seq<int>, columns: seq<string>, cells: seq<seq<Option<real>>>)

  predicate NoDup<T(==)>(s: seq<T>)
  {
    forall i, j :: 0 <= i < j < |s| ==> s[i] != s[j]
  }

  // ---------------------------------------------------------------- columns

  /** `unique()`: the distinct elements, each where it first appears. */
  function Unique(s: seq<string>): (u: seq<string>)
    ensures forall x :: x in u <==> x in s
    ensures NoDup(u)
    decreases |s|
  {
    if |s| == 0 then []
    else
      var p := Unique(s[..|s| - 1]);
      assert forall x :: x in s <==> x in s[..|s| - 1] || x == s[|s| - 1];
      if s[|s| - 1] in p then p else p + [s[|s| - 1]]
  }

  /**
   * The order of `unique()` is the order of first appearance: whenever u[j] occurs in s,
   * every earlier u[i] has occurred before it.
   */
  lemma {:induction false} UniqueFirstAppearance(s: seq<string>)
    ensures forall i, j, k :: 0 <= i < j < |Unique(s)| && 0 <= k < |s| && s[k] == Unique(s)[j]
              ==> Unique(s)[i] in s[..k]
    decreases |s|
  {
    if |s| > 0 {
      var s', x := s[..|s| - 1], s[|s| - 1];
      var p, u := Unique(s'), Unique(s);
      UniqueFirstAppearance(s');
      forall i, j, k | 0 <= i < j < |u| && 0 <= k < |s| && s[k] == u[j]
        ensures u[i] in s[..k]
      {
        if k < |s| - 1 {
          assert s[..k] == s'[..k];
          assert s'[k] == u[j];
          assert u[j] in p;
          assert j < |p|;
          assert u[i] == p[i] && u[j] == p[j];
        } else {
          assert s[..k] == s';
          assert u[i] in p;
        }
      }
    }
  }

  /** A list with no repeats is its own `unique()`. */
  lemma {:induction false} UniqueOfDistinct(s: seq<string>)
    requires NoDup(s)
    ensures Unique(s) == s
    decreases |s|
  {
    if |s| > 0 {
      UniqueOfDistinct(s[..|s| - 1]);
      assert s[|s| - 1] !in s[..|s| - 1];
    }
  }

  /** `unique()` of an extended list depends only on `unique()` of the list it extends. */
  lemma UniqueSnoc(a: seq<string>, b: seq<string>, x: string)
    requires Unique(a) == Unique(b)
    ensures Unique(a + [x]) == Unique(b + [x])
  {
    assert (a + [x])[..|a|] == a;
    assert (b + [x])[..|b|] == b;
  }

  function Repeat<T>(x: T, n: nat): (r: seq<T>)
    ensures |r| == n && forall k :: 0 <= k < n ==> r[k] == x
  {
    seq(n, _ => x)
  }

  /** A non-empty run of one value contributes to `unique()` exactly what one copy does. */
  lemma {:induction false} UniqueRun(s: seq<string>, x: string, n: nat)
    requires n > 0
    ensures Unique(s + Repeat(x, n)) == Unique(s + [x])
    decreases n
  {
    if n > 1 {
      UniqueRun(s, x, n - 1);
      var t := s + Repeat(x, n - 1);
      assert s + Repeat(x, n) == t + [x];
      assert (t + [x])[..|t|] == t;
      assert x in t;
    } else {
      assert Repeat(x, n) == [x];
    }
  }

  function Locations(recs: seq<Record>): (locs: seq<string>)
    ensures |locs| == |recs|
    ensures forall k :: 0 <= k < |recs| ==> locs[k] == recs[k].location
  {
    seq(|recs|, k requires 0 <= k < |recs| => recs[k].location)
  }

  // ---------------------------------------------------------------- rows

  /** Some record at this time carries a value (so its group survives `dropna`). */
  ghost predicate HasValueAt(recs: seq<Record>, time: int)
  {
    exists r :: r in recs && r.time == time && r.value.Some?
  }

  /** Inserts x into an ascending list of distinct times. */
  function InsertSorted(s: seq<int>, x: int): (r: seq<int>)
    requires Ascending(s)
    ensures Ascending(r)
    ensures forall y :: y in r <==> y in s || y == x
    decreases |s|
  {
    if |s| == 0 then [x]
    else if x < s[0] then [x] + s
    else if x == s[0] then s
    else
      var rest := InsertSorted(s[1..], x);
      assert forall y :: y in s <==> y == s[0] || y in s[1..];
      assert forall k :: 0 <= k < |rest| ==> s[0] < rest[k] by {
        forall k | 0 <= k < |rest|
          ensures s[0] < rest[k]
        {
          assert rest[k] in rest;
          if rest[k] != x {
            var m :| 0 <= m < |s[1..]| && s[1..][m] == rest[k];
            assert s[m + 1] == rest[k];
          }
        }
      }
      [s[0]] + rest
  }

  /** The row labels of the pivot: the distinct times that have a value, ascending (`sort=True`). */
  function ValuedTimes(recs: seq<Record>): (times: seq<int>)
    ensures Ascending(times)
    ensures forall t :: t in times <==> HasValueAt(recs, t)
    decreases |recs|
  {
    if |recs| == 0 then []
    else
      var prefix, last := recs[..|recs| - 1], recs[|recs| - 1];
      assert forall r :: r in recs <==> r in prefix || r == last;
      var p := ValuedTimes(prefix);
      if last.value.Some? then InsertSorted(p, last.time) else p
  }

  // ---------------------------------------------------------------- cells

  /** The non-NaN values of the records at this time and location, in record order. */
  function MatchingValues(recs: seq<Record>, time: int, location: string): (vs: seq<real>)
    ensures |vs| <= |recs|
    ensures forall v :: v in vs ==> Record(time, location, Some(v)) in recs
    ensures |vs| > 0 <==> exists v :: Record(time, location, Some(v)) in recs
    decreases |recs|
  {
    if |recs| == 0 then []
    else
      var prefix, last := recs[..|recs| - 1], recs[|recs| - 1];
      assert forall r :: r in recs <==> r in prefix || r == last;
      var p := MatchingValues(prefix, time, location);
      if last.time == time && last.location == location && last.value.Some?
      then
        var w := last.value.value;
        assert Record(time, location, Some(w)) == last;
        assert Record(time, location, Some(w)) in recs;
        p + [last.value.value]
      else p
  }

  function Sum(vs: seq<real>): (total: real)
    decreases |vs|
  {
    if |vs| == 0 then 0.0 else Sum(vs[..|vs| - 1]) + vs[|vs| - 1]
  }

  function Mean(vs: seq<real>): (avg: real)
    requires |vs| > 0
  {
    Sum(vs) / (|vs| as real)
  }

  lemma {:induction false} SumBounds(vs: seq<real>, lo: real, hi: real)
    requires forall k :: 0 <= k < |vs| ==> lo <= vs[k] <= hi
    ensures (|vs| as real) * lo <= Sum(vs) <= (|vs| as real) * hi
    decreases |vs|
  {
    if |vs| > 0 {
      var n := |vs| as real;
      var prefix := vs[..|vs| - 1];
      SumBounds(prefix, lo, hi);
      assert Sum(vs) == Sum(prefix) + vs[|vs| - 1];
      assert |prefix| as real == n - 1.0;
      assert n * lo == (n - 1.0) * lo + lo;
      assert n * hi == (n - 1.0) * hi + hi;
    }
  }

  /** The mean lies between the smallest and the largest value averaged. */
  lemma MeanBounds(vs: seq<real>, lo: real, hi: real)
    requires |vs| > 0
    requires forall k :: 0 <= k < |vs| ==> lo <= vs[k] <= hi
    ensures lo <= Mean(vs) <= hi
  {
    SumBounds(vs, lo, hi);
    var n := |vs| as real;
    assert Sum(vs) / n >= (n * lo) / n;
    assert Sum(vs) / n <= (n * hi) / n;
  }

  /** `aggfunc="mean"` over one group: absent when the group has no value. */
  function CellValue(recs: seq<Record>, time: int, location: string): (c: Option<real>)
    ensures c.Some? <==> exists v :: Record(time, location, Some(v)) in recs
  {
    var vs := MatchingValues(recs, time, location);
    if |vs| == 0 then None else Some(Mean(vs))
  }

  // ---------------------------------------------------------------- the table

  /**
   * The pivoted and reindexed table: one row per time that has a value, ascending; one
   * column per location, in first-appearance order; each cell the mean of its group.
   */
  function PivotTable(recs: seq<Record>): (tbl: Table)
    ensures Ascending(tbl.index)
    ensures forall t :: t in tbl.index <==> HasValueAt(recs, t)
    ensures NoDup(tbl.columns)
    ensures forall l :: l in tbl.columns <==> l in Locations(recs)
    ensures |tbl.cells| == |tbl.index|
    ensures forall r :: 0 <= r < |tbl.index| ==> |tbl.cells[r]| == |tbl.columns|
    ensures forall r, c :: 0 <= r < |tbl.index| && 0 <= c < |tbl.columns| ==>
              tbl.cells[r][c] == CellValue(recs, tbl.index[r], tbl.columns[c])
  {
    var index := ValuedTimes(recs);
    var columns := Unique(Locations(recs));
    var cells := seq(|index|, r requires 0 <= r < |index| =>
                   seq(|columns|, c requires 0 <= c < |columns| => CellValue(recs, index[r], columns[c])));
    Table(index, columns, cells)
  }

  /** Columns come in the order in which their locations first appear in the records. */
  lemma PivotColumnOrder(recs: seq<Record>)
    ensures forall i, j, k :: 0 <= i < j < |PivotTable(recs).columns| && 0 <= k < |recs| &&
              recs[k].location == PivotTable(recs).columns[j]
              ==> exists k' :: 0 <= k' < k && recs[k'].location == PivotTable(recs).columns[i]
  {
    var locs := Locations(recs);
    UniqueFirstAppearance(locs);
    var cols := PivotTable(recs).columns;
    assert cols == Unique(locs);
    forall i, j, k | 0 <= i < j < |cols| && 0 <= k < |recs| && recs[k].location == cols[j]
      ensures exists k' :: 0 <= k' < k && recs[k'].location == cols[i]
    {
      assert locs[k] == cols[j];
      assert cols[i] in locs[..k];
      var k' :| 0 <= k' < k && locs[..k][k'] == cols[i];
      assert recs[k'].location == cols[i];
    }
  }

  /** Row r of the table has at least one cell with a value. */
  ghost predicate RowHasValue(tbl: Table, r: nat)
    requires r < |tbl.cells|
  {
    exists c :: 0 <= c < |tbl.cells[r]| && tbl.cells[r][c].Some?
  }

  /** Every row of the table has at least one value. */
  lemma PivotRowsHaveValues(recs: seq<Record>)
    ensures forall r :: 0 <= r < |PivotTable(recs).cells| ==> RowHasValue(PivotTable(recs), r)
  {
    var tbl := PivotTable(recs);
    forall r | 0 <= r < |tbl.cells|
      ensures RowHasValue(tbl, r)
    {
      var t := tbl.index[r];
      assert HasValueAt(recs, t);
      var rec :| rec in recs && rec.time == t && rec.value.Some?;
      var val := rec.value.value;
      assert Record(t, rec.location, Some(val)) == rec;
      assert Record(t, rec.location, Some(val)) in recs;
      var k :| 0 <= k < |recs| && recs[k] == rec;
      assert Locations(recs)[k] == rec.location;
      assert rec.location in tbl.columns;
      var c :| 0 <= c < |tbl.columns| && tbl.columns[c] == rec.location;
      assert tbl.cells[r][c] == CellValue(recs, t, rec.location);
      assert tbl.cells[r][c].Some?;
    }
  }

  /**
   * A location whose records are all NaN still gets its column (through the reindex),
   * and every cell of that column is empty.
   */
  lemma PivotKeepsEmptyColumn(recs: seq<Record>, location: string)
    requires location in Locations(recs)
    requires forall r :: r in recs && r.location == location ==> r.value.None?
    ensures location in PivotTable(recs).columns
    ensures forall r, c :: (0 <= r < |PivotTable(recs).index| && 0 <= c < |PivotTable(recs).columns| &&
                            PivotTable(recs).columns[c] == location) ==> PivotTable(recs).cells[r][c].None?
  {
  }

  /** With exactly one value in a group (the expected case) the cell is that value. */
  lemma PivotSingleValue(recs: seq<Record>, time: int, location: string, v: real)
    requires MatchingValues(recs, time, location) == [v]
    ensures CellValue(recs, time, location) == Some(v)
  {
    assert Sum([v]) == Sum([]) + v;
  }

  /** A cell lies between the smallest and the largest value of its group. */
  lemma PivotCellBounds(recs: seq<Record>, time: int, location: string, lo: real, hi: real)
    requires forall v :: Record(time, location, Some(v)) in recs ==> lo <= v <= hi
    requires CellValue(recs, time, location).Some?
    ensures lo <= CellValue(recs, time, location).value <= hi
  {
    var vs := MatchingValues(recs, time, location);
    assert forall k :: 0 <= k < |vs| ==> vs[k] in vs;
    MeanBounds(vs, lo, hi);
  }

  // ---------------------------------------------------------------- group lemmas

  /** Grouping distributes over concatenation of the records. */
  lemma {:induction false} MatchingValuesAppend(a: seq<Record>, b: seq<Record>, time: int, location: string)
    ensures MatchingValues(a + b, time, location)
         == MatchingValues(a, time, location) + MatchingValues(b, time, location)
    decreases |b|
  {
    if |b| > 0 {
      var b', x := b[..|b| - 1], b[|b| - 1];
      MatchingValuesAppend(a, b', time, location);
      assert (a + b)[..|a + b| - 1] == a + b';
      assert (a + b)[|a + b| - 1] == x;
    } else {
      assert a + b == a;
    }
  }

  /** No record of this time and location: the group is empty. */
  lemma {:induction false} MatchingValuesNone(recs: seq<Record>, time: int, location: string)
    requires forall m :: 0 <= m < |recs| ==> recs[m].time != time || recs[m].location != location
    ensures MatchingValues(recs, time, location) == []
    decreases |recs|
  {
    if |recs| > 0 {
      MatchingValuesNone(recs[..|recs| - 1], time, location);
    }
  }

  /** Exactly one record (at position k) of this time and location: the group is its value, if any. */
  lemma {:induction false} MatchingValuesSingle(recs: seq<Record>, k: nat)
    requires k < |recs|
    requires forall m :: 0 <= m < |recs| && m != k ==>
               recs[m].time != recs[k].time || recs[m].location != recs[k].location
    ensures MatchingValues(recs, recs[k].time, recs[k].location)
         == if recs[k].value.Some? then [recs[k].value.value] else []
    decreases |recs|
  {
    var time, location := recs[k].time, recs[k].location;
    var prefix := recs[..|recs| - 1];
    if k == |recs| - 1 {
      MatchingValuesNone(prefix, time, location);
    } else {
      assert prefix[k] == recs[k];
      MatchingValuesSingle(prefix, k);
    }
  }

  /** Two ascending lists with the same elements are the same list. */
  lemma {:induction false} AscendingUnique(s: seq<int>, t: seq<int>)
    requires Ascending(s) && Ascending(t)
    requires forall x :: x in s <==> x in t
    ensures s == t
    decreases |s|
  {
    assert |s| > 0 ==> s[0] in s && s[0] in t;
    assert |t| > 0 ==> t[0] in t && t[0] in s;
    if |s| > 0 && |t| > 0 {
      assert s[0] == t[0];
      assert forall x :: x in s[1..] <==> x in s && x != s[0];
      assert forall x :: x in t[1..] <==> x in t && x != t[0];
      AscendingUnique(s[1..], t[1..]);
      assert s == [s[0]] + s[1..] && t == [t[0]] + t[1..];
    }
  }
}
