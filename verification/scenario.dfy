/** A worked example: two floods, in 2000 and 2001, and a drought in 2000,
    followed from the loaded rows through the table to the bars of three
    views. */
module Scenario {
  import opened Wrappers
  import opened Order
  import opened Records
  import opened Rollup
  import opened Chart
  import opened Pipeline

  /** The two floods are usable; the filter keeps them in file order. */
  lemma {:induction false} ScenarioFloodsFiltered()
    ensures FilterValid([RawRecord("Flood", Some(2000)), RawRecord("Flood", Some(2001))]) ==
      [Record("Flood", 2000), Record("Flood", 2001)]
  {
    var a := RawRecord("Flood", Some(2000));
    var b := RawRecord("Flood", Some(2001));
    FilterValidConcat([a], [b]);
    assert [a] + [b] == [a, b];
    FilterValidSingle(a);
    FilterValidSingle(b);
  }

  /** All three rows are usable; the filter keeps them in file order. */
  lemma {:induction false} ScenarioFiltered()
    ensures FilterValid([RawRecord("Flood", Some(2000)), RawRecord("Flood", Some(2001)), RawRecord("Drought", Some(2000))]) ==
      [Record("Flood", 2000), Record("Flood", 2001), Record("Drought", 2000)]
  {
    var floods := [RawRecord("Flood", Some(2000)), RawRecord("Flood", Some(2001))];
    var c := RawRecord("Drought", Some(2000));
    ScenarioFloodsFiltered();
    FilterValidConcat(floods, [c]);
    assert floods + [c] == [RawRecord("Flood", Some(2000)), RawRecord("Flood", Some(2001)), c];
    FilterValidSingle(c);
  }

  /** The pre-sort puts the drought first. */
  lemma {:induction false} ScenarioSorted()
    ensures SortRecords(FilterValid([RawRecord("Flood", Some(2000)), RawRecord("Flood", Some(2001)), RawRecord("Drought", Some(2000))])) ==
      [Record("Drought", 2000), Record("Flood", 2000), Record("Flood", 2001)]
  {
    ScenarioFiltered();
    var s := [Record("Flood", 2000), Record("Flood", 2001), Record("Drought", 2000)];
    var e := [Record("Drought", 2000), Record("Flood", 2000), Record("Flood", 2001)];
    assert StrBelow("Drought", "Flood");
    assert RecordsSorted(e);
    assert multiset(s) == multiset(e);
    SortedPermutationUnique(SortRecords(s), e);
  }

  /** The floods form one type group with two year groups of one row each. */
  lemma {:induction false} ScenarioFloods()
    ensures Rollup.Rollup([Record("Flood", 2000), Record("Flood", 2001)]) ==
      [MetricRow("Flood", 2000, 1), MetricRow("Flood", 2001, 1)]
  {
    var floods := [Record("Flood", 2000), Record("Flood", 2001)];
    assert YearRows("Flood", floods) == [MetricRow("Flood", 2000, 1), MetricRow("Flood", 2001, 1)];
    assert SelectType(floods, "Flood", true) == floods;
    assert SelectType(floods[1..], "Flood", false) == [];
  }

  /** Grouping the sorted rows: the drought group, then the flood group. */
  lemma {:induction false} ScenarioRollup()
    ensures Rollup.Rollup([Record("Drought", 2000), Record("Flood", 2000), Record("Flood", 2001)]) ==
      [MetricRow("Drought", 2000, 1), MetricRow("Flood", 2000, 1), MetricRow("Flood", 2001, 1)]
  {
    ScenarioFloods();
    var data := [Record("Drought", 2000), Record("Flood", 2000), Record("Flood", 2001)];
    assert SelectType(data, "Drought", true) == [Record("Drought", 2000)];
    assert SelectType(data[1..], "Drought", false) == [Record("Flood", 2000), Record("Flood", 2001)];
    assert YearRows("Drought", [Record("Drought", 2000)]) == [MetricRow("Drought", 2000, 1)];
  }

  /** The table of the three rows: one row per (type, year), each of count 1,
      drought first. */
  lemma {:induction false} ScenarioTable()
    ensures Aggregate([RawRecord("Flood", Some(2000)), RawRecord("Flood", Some(2001)), RawRecord("Drought", Some(2000))]) ==
      [MetricRow("Drought", 2000, 1), MetricRow("Flood", 2000, 1), MetricRow("Flood", 2001, 1)]
  {
    ScenarioSorted();
    ScenarioRollup();
  }

  /** The year-2000 slice in table order shows the drought before the
      flood. */
  lemma {:induction false} ScenarioYear2000()
    ensures SortedData([MetricRow("Drought", 2000, 1), MetricRow("Flood", 2000, 1), MetricRow("Flood", 2001, 1)], 2000, "none") == [SliceRow("Drought", 1), SliceRow("Flood", 1)]
  {
    assert DataForYear([MetricRow("Drought", 2000, 1), MetricRow("Flood", 2000, 1), MetricRow("Flood", 2001, 1)], 2000) == [SliceRow("Drought", 1), SliceRow("Flood", 1)];
  }

  /** Sorting the year-2000 slice by count descending keeps that order: the
      two counts tie and the sort is stable. */
  lemma {:induction false} ScenarioYear2000Descending()
    ensures SortedData([MetricRow("Drought", 2000, 1), MetricRow("Flood", 2000, 1), MetricRow("Flood", 2001, 1)], 2000, "cntDesc") == [SliceRow("Drought", 1), SliceRow("Flood", 1)]
  {
    var both := [SliceRow("Drought", 1), SliceRow("Flood", 1)];
    assert DataForYear([MetricRow("Drought", 2000, 1), MetricRow("Flood", 2000, 1), MetricRow("Flood", 2001, 1)], 2000) == both;
    StableSortUnique(Down, both, both);
  }

  /** Moving the slider to 2001 leaves only the flood. */
  lemma {:induction false} ScenarioYear2001()
    ensures SortedData([MetricRow("Drought", 2000, 1), MetricRow("Flood", 2000, 1), MetricRow("Flood", 2001, 1)], 2001, "cntDesc") == [SliceRow("Flood", 1)]
  {
    var flood := [SliceRow("Flood", 1)];
    assert DataForYear([MetricRow("Drought", 2000, 1), MetricRow("Flood", 2000, 1), MetricRow("Flood", 2001, 1)], 2001) == flood;
    StableSortUnique(Down, flood, flood);
  }
}
