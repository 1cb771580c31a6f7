/** The whole data path of the chart, from the loaded rows to the bars on
    screen: filter, pre-sort, group-and-count, then slice and sort for the
    selected year. */
module Pipeline {
  import opened Wrappers
  import opened Seqs
  import opened Records
  import opened Rollup
  import opened Categories
  import opened Chart

  /** The `aggregated` table: the usable rows, pre-sorted, grouped by type and
      year and counted. */
  function Aggregate(raw: seq<RawRecord>): (rows: seq<MetricRow>)
    ensures |rows| <= |raw|
    ensures rows == [] <==> forall r :: r in raw ==> !IsValid(r)
  {
    var sorted := SortRecords(FilterValid(raw));
    assert |sorted| == |multiset(sorted)|;
    FilterValidEmpty(raw);
    Rollup.Rollup(sorted)
  }

  /** Every row of the table counts the loaded rows with its type and year:
      the count is at least one and the type is non-empty. */
  lemma {:induction false} AggregateCounts(raw: seq<RawRecord>)
    ensures forall i :: 0 <= i < |Aggregate(raw)| ==>
      var row := Aggregate(raw)[i];
      row.disasterType != [] && row.value >= 1 &&
      row.value == multiset(raw)[RawRecord(row.disasterType, Some(row.year))]
  {
    var valid := FilterValid(raw);
    var sorted := SortRecords(valid);
    var rows := Rollup.Rollup(sorted);
    FilterValidCounts(raw);
    RollupValues(sorted);
    forall i | 0 <= i < |rows|
      ensures rows[i].disasterType != [] && rows[i].value >= 1
      ensures rows[i].value == multiset(raw)[RawRecord(rows[i].disasterType, Some(rows[i].year))]
    {
      assert rows[i].value == multiset(sorted)[Key(rows[i])] >= 1;
      assert multiset(valid)[Key(rows[i])] >= 1;
      assert AsRaw(Key(rows[i])) == RawRecord(rows[i].disasterType, Some(rows[i].year));
    }
  }

  /** The table has exactly one row per (type, year) that some usable loaded
      row has, and its rows are in (type, year) order. */
  lemma {:induction false} AggregateKeys(raw: seq<RawRecord>)
    ensures forall x :: x in Keys(Aggregate(raw)) <==> IsValid(AsRaw(x)) && AsRaw(x) in raw
    ensures NoDuplicates(Keys(Aggregate(raw)))
    ensures StrictlyAscending(Keys(Aggregate(raw)))
  {
    var valid := FilterValid(raw);
    var sorted := SortRecords(valid);
    FilterValidCounts(raw);
    RollupKeys(sorted);
    RollupAscending(sorted);
    forall x
      ensures x in sorted <==> IsValid(AsRaw(x)) && AsRaw(x) in raw
    {
      assert x in sorted <==> x in multiset(valid);
    }
  }

  /** In every state the value axis ends at the largest visible count, or at
      1 when the selected year has no bars. */
  lemma {:induction false} VisibleYUpper(raw: seq<RawRecord>, st: ViewState)
    ensures Visible(Aggregate(raw), st) == [] ==> UpdateYUpper(Visible(Aggregate(raw), st)) == 1
    ensures Visible(Aggregate(raw), st) != [] ==>
      UpdateYUpper(Visible(Aggregate(raw), st)) == MaxValue(Visible(Aggregate(raw), st)).value
  {
    var rows := Aggregate(raw);
    var slice := Visible(rows, st);
    var data := DataForYear(rows, st.year);
    AggregateCounts(raw);
    forall i | 0 <= i < |slice|
      ensures slice[i].value >= 1
    {
      assert slice[i] in multiset(data);
      var k :| 0 <= k < |data| && data[k] == slice[i];
      var row := MetricRow(slice[i].disasterType, st.year, slice[i].value);
      assert row in rows;
      var m :| 0 <= m < |rows| && rows[m] == row;
    }
    if slice != [] {
      YUpperIsMax(slice);
    }
  }

  /** No usable row is lost or counted twice: the counts add up to the number
      of usable loaded rows. */
  lemma {:induction false} AggregateTotal(raw: seq<RawRecord>)
    ensures Total(Aggregate(raw)) == |FilterValid(raw)|
  {
    var sorted := SortRecords(FilterValid(raw));
    RollupTotal(sorted);
    assert |sorted| == |multiset(sorted)|;
  }

  /** The table depends only on which rows were loaded, not on their order in
      the file. */
  lemma {:induction false} AggregateOrderIndependent(raw1: seq<RawRecord>, raw2: seq<RawRecord>)
    requires multiset(raw1) == multiset(raw2)
    ensures Aggregate(raw1) == Aggregate(raw2)
  {
    var v1 := FilterValid(raw1);
    var v2 := FilterValid(raw2);
    FilterValidCounts(raw1);
    FilterValidCounts(raw2);
    assert multiset(v1) == multiset(v2) by {
      forall x
        ensures multiset(v1)[x] == multiset(v2)[x]
      {
      }
    }
    SortedPermutationUnique(SortRecords(v1), SortRecords(v2));
  }

}
