/** `d3.flatRollup(data, v => v.length, d => d.disasterType, d => d.year)`:
    the valid records grouped by type and then by year, one row per observed
    (type, year) pair holding the size of its group. d3 keeps group keys in
    first-occurrence order at each level: types in the order they first
    appear, and within a type its years in the order they first appear. */
module Rollup {
  import opened Order
  import opened Seqs
  import opened Records

  /** One aggregated row `{disasterType, year, value}`. */
  datatype MetricRow = MetricRow(disasterType: string, year: int, value: nat)

  /** The (type, year) key of a row. */
  function Key(row: MetricRow): Record {
    Record(row.disasterType, row.year)
  }

  function Keys(rows: seq<MetricRow>): (ks: seq<Record>)
    ensures |ks| == |rows|
    ensures forall i :: 0 <= i < |rows| ==> ks[i] == Key(rows[i])
  {
    seq(|rows|, i requires 0 <= i < |rows| => Key(rows[i]))
  }

  lemma {:induction false} KeysTail(rows: seq<MetricRow>)
    requires |rows| > 0
    ensures Keys(rows[1..]) == Keys(rows)[1..]
  {
    assert forall i :: 0 <= i < |rows| - 1 ==> rows[1..][i] == rows[i + 1];
  }

  lemma {:induction false} KeysConcat(a: seq<MetricRow>, b: seq<MetricRow>)
    ensures Keys(a + b) == Keys(a) + Keys(b)
  {
  }

  /** The sum of the rows' values. */
  function Total(rows: seq<MetricRow>): nat {
    if |rows| == 0 then 0 else rows[0].value + Total(rows[1..])
  }

  lemma {:induction false} TotalConcat(a: seq<MetricRow>, b: seq<MetricRow>)
    ensures Total(a + b) == Total(a) + Total(b)
  {
    if |a| > 0 {
      assert (a + b)[1..] == a[1..] + b;
      TotalConcat(a[1..], b);
    } else {
      assert a + b == b;
    }
  }

  /** The records whose type is `t` (`equal`) or is not `t` (`!equal`), in
      their original order. */
  function SelectType(s: seq<Record>, t: string, equal: bool): (r: seq<Record>)
    ensures |r| <= |s|
  {
    if |s| == 0 then []
    else (if (s[0].disasterType == t) == equal then [s[0]] else []) + SelectType(s[1..], t, equal)
  }

  /** The records whose year is `y` (`equal`) or is not `y` (`!equal`), in
      their original order. */
  function SelectYear(s: seq<Record>, y: int, equal: bool): (r: seq<Record>)
    ensures |r| <= |s|
  {
    if |s| == 0 then []
    else (if (s[0].year == y) == equal then [s[0]] else []) + SelectYear(s[1..], y, equal)
  }

  /** Selecting by type keeps every copy of a matching record and no other. */
  lemma {:induction false} SelectTypeCounts(s: seq<Record>, t: string, equal: bool)
    ensures forall x :: multiset(SelectType(s, t, equal))[x]
                        == if (x.disasterType == t) == equal then multiset(s)[x] else 0
    ensures forall x :: x in SelectType(s, t, equal) <==> x in s && (x.disasterType == t) == equal
  {
    if |s| > 0 {
      assert s == [s[0]] + s[1..];
      SelectTypeCounts(s[1..], t, equal);
    }
  }

  /** Selecting by year keeps every copy of a matching record and no other. */
  lemma {:induction false} SelectYearCounts(s: seq<Record>, y: int, equal: bool)
    ensures forall x :: multiset(SelectYear(s, y, equal))[x]
                        == if (x.year == y) == equal then multiset(s)[x] else 0
    ensures forall x :: x in SelectYear(s, y, equal) <==> x in s && (x.year == y) == equal
  {
    if |s| > 0 {
      assert s == [s[0]] + s[1..];
      SelectYearCounts(s[1..], y, equal);
    }
  }

  lemma {:induction false} SelectTypeSplit(s: seq<Record>, t: string)
    ensures |SelectType(s, t, true)| + |SelectType(s, t, false)| == |s|
  {
    if |s| > 0 {
      SelectTypeSplit(s[1..], t);
    }
  }

  lemma {:induction false} SelectYearSplit(s: seq<Record>, y: int)
    ensures |SelectYear(s, y, true)| + |SelectYear(s, y, false)| == |s|
  {
    if |s| > 0 {
      SelectYearSplit(s[1..], y);
    }
  }

  /** Within one type's group, the records of year `y` are exactly the copies
      of the key (t, y), so their number is that key's multiplicity. */
  lemma {:induction false} YearGroupSize(g: seq<Record>, t: string, y: int)
    requires OfType(g, t)
    ensures |SelectYear(g, y, true)| == multiset(g)[Record(t, y)]
  {
    if |g| > 0 {
      assert g == [g[0]] + g[1..];
      YearGroupSize(g[1..], t, y);
    }
  }

  lemma {:induction false} SelectTypeSorted(s: seq<Record>, t: string, equal: bool)
    requires RecordsSorted(s)
    ensures RecordsSorted(SelectType(s, t, equal))
  {
    if |s| > 0 {
      SortedTail(s);
      SelectTypeSorted(s[1..], t, equal);
      SelectTypeCounts(s[1..], t, equal);
      var rest := SelectType(s[1..], t, equal);
      forall e | e in rest
        ensures CompareRecords(s[0], e) <= 0
      {
        SortedHeadFirst(s, e);
      }
      SortedCons(s[0], rest);
    }
  }

  lemma {:induction false} SelectYearSorted(s: seq<Record>, y: int, equal: bool)
    requires RecordsSorted(s)
    ensures RecordsSorted(SelectYear(s, y, equal))
  {
    if |s| > 0 {
      SortedTail(s);
      SelectYearSorted(s[1..], y, equal);
      SelectYearCounts(s[1..], y, equal);
      var rest := SelectYear(s[1..], y, equal);
      forall e | e in rest
        ensures CompareRecords(s[0], e) <= 0
      {
        SortedHeadFirst(s, e);
      }
      SortedCons(s[0], rest);
    }
  }

  /** The inner level of the rollup over one type's group `g`: a row per year
      in first-occurrence order, holding the length of that year's group. */
  function YearRows(t: string, g: seq<Record>): (rows: seq<MetricRow>)
    ensures |rows| <= |g|
    decreases |g|
  {
    if |g| == 0 then []
    else
      var y := g[0].year;
      [MetricRow(t, y, |SelectYear(g, y, true)|)] + YearRows(t, SelectYear(g[1..], y, false))
  }

  /** The flattened rollup: for each type in first-occurrence order, the year
      rows of that type's group. `data[0]` is of type `t`, so the records of
      other types all lie in `data[1..]`. */
  function Rollup(data: seq<Record>): (rows: seq<MetricRow>)
    ensures |rows| <= |data|
    ensures rows == [] <==> data == []
    decreases |data|
  {
    if |data| == 0 then []
    else
      var t := data[0].disasterType;
      SelectTypeSplit(data, t);
      YearRows(t, SelectType(data, t, true)) + Rollup(SelectType(data[1..], t, false))
  }

  /** All of `g` is of type `t`. */
  predicate OfType(g: seq<Record>, t: string) {
    forall i :: 0 <= i < |g| ==> g[i].disasterType == t
  }

  /** The year groups left after the first one are still of type `t`. */
  lemma {:induction false} OfTypeSelectYear(g: seq<Record>, t: string, y: int)
    requires OfType(g, t) && |g| > 0
    ensures OfType(SelectYear(g[1..], y, false), t)
  {
    var g' := SelectYear(g[1..], y, false);
    SelectYearCounts(g[1..], y, false);
    forall i | 0 <= i < |g'|
      ensures g'[i].disasterType == t
    {
      assert g'[i] in g';
    }
  }

  lemma {:induction false} OfTypeSelectType(s: seq<Record>, t: string)
    ensures OfType(SelectType(s, t, true), t)
  {
    var g := SelectType(s, t, true);
    SelectTypeCounts(s, t, true);
    forall i | 0 <= i < |g|
      ensures g[i].disasterType == t
    {
      assert g[i] in g;
    }
  }

  /** The key list of the year rows: the first record's key, then the keys of
      the rows built from the other years. */
  lemma {:induction false} YearRowsUnfold(t: string, g: seq<Record>)
    requires OfType(g, t) && |g| > 0
    ensures var y := g[0].year;
      Keys(YearRows(t, g)) == [g[0]] + Keys(YearRows(t, SelectYear(g[1..], y, false)))
  {
    var y := g[0].year;
    var head := MetricRow(t, y, |SelectYear(g, y, true)|);
    var rest := YearRows(t, SelectYear(g[1..], y, false));
    assert YearRows(t, g) == [head] + rest;
    KeysConcat([head], rest);
  }

  /** Every row holds the number of records of `s` with its key, which is
      therefore at least one. */
  predicate ValuesCount(rows: seq<MetricRow>, s: seq<Record>) {
    forall i :: 0 <= i < |rows| ==> rows[i].value == multiset(s)[Key(rows[i])] >= 1
  }

  /** The year rows' keys are pairwise distinct and are exactly the records
      of the group. */
  lemma {:induction false} YearRowsKeys(t: string, g: seq<Record>)
    requires OfType(g, t)
    ensures forall x :: x in g <==> x in Keys(YearRows(t, g))
    ensures NoDuplicates(Keys(YearRows(t, g)))
    decreases |g|
  {
    if |g| > 0 {
      var y := g[0].year;
      var g' := SelectYear(g[1..], y, false);
      var ks := Keys(YearRows(t, g'));
      OfTypeSelectYear(g, t, y);
      SelectYearCounts(g[1..], y, false);
      YearRowsKeys(t, g');
      YearRowsUnfold(t, g);
      assert g == [g[0]] + g[1..];
      forall x
        ensures x in g <==> x in [g[0]] + ks
      {
        if x in g[1..] && x.year == y {
          assert x.disasterType == t;
        }
      }
      NoDuplicatesCons(g[0], ks);
    }
  }

  /** Each year row holds the number of records of the group with its key. */
  lemma {:induction false} YearRowsValues(t: string, g: seq<Record>)
    requires OfType(g, t)
    ensures ValuesCount(YearRows(t, g), g)
    decreases |g|
  {
    if |g| > 0 {
      var y := g[0].year;
      var g' := SelectYear(g[1..], y, false);
      var head := MetricRow(t, y, |SelectYear(g, y, true)|);
      var rest := YearRows(t, g');
      var rows := YearRows(t, g);
      assert rows == [head] + rest;
      OfTypeSelectYear(g, t, y);
      YearRowsValues(t, g');
      YearGroupSize(g, t, y);
      assert g[0] in g;
      forall i | 0 < i < |rows|
        ensures rows[i].value == multiset(g)[Key(rows[i])] >= 1
      {
        assert rows[i] == rest[i - 1];
        LaterYearRow(t, g, i - 1);
      }
    }
  }

  /** A row built from the years after the first holds the same count in the
      whole group as in what is left of it. */
  lemma {:induction false} LaterYearRow(t: string, g: seq<Record>, i: nat)
    requires OfType(g, t) && |g| > 0
    requires ValuesCount(YearRows(t, SelectYear(g[1..], g[0].year, false)), SelectYear(g[1..], g[0].year, false))
    requires i < |YearRows(t, SelectYear(g[1..], g[0].year, false))|
    ensures var row := YearRows(t, SelectYear(g[1..], g[0].year, false))[i];
      row.value == multiset(g)[Key(row)] >= 1
  {
    var y := g[0].year;
    var g' := SelectYear(g[1..], y, false);
    var rest := YearRows(t, g');
    var k := Key(rest[i]);
    assert Keys(rest)[i] == k;
    OfTypeSelectYear(g, t, y);
    YearRowsKeys(t, g');
    SelectYearCounts(g[1..], y, false);
    assert k in g';
    CountBeyondHead(g, k);
  }

  /** The year rows' values add up to the size of the group. */
  lemma {:induction false} YearRowsTotal(t: string, g: seq<Record>)
    ensures Total(YearRows(t, g)) == |g|
    decreases |g|
  {
    if |g| > 0 {
      var y := g[0].year;
      var g' := SelectYear(g[1..], y, false);
      var head := MetricRow(t, y, |SelectYear(g, y, true)|);
      var rest := YearRows(t, g');
      assert YearRows(t, g) == [head] + rest;
      YearRowsTotal(t, g');
      TotalConcat([head], rest);
      assert Total([head]) == head.value by {
        assert [head][1..] == [];
      }
      SelectYearSplit(g, y);
      assert SelectYear(g, y, false) == [] + g';
    }
  }

  /** The rollup's keys are pairwise distinct and are exactly the (type, year)
      pairs that occur in the data: no pair is missing and none is invented. */
  lemma {:induction false} RollupKeys(data: seq<Record>)
    ensures forall x :: x in data <==> x in Keys(Rollup(data))
    ensures NoDuplicates(Keys(Rollup(data)))
    decreases |data|
  {
    if |data| > 0 {
      var t := data[0].disasterType;
      var g := SelectType(data, t, true);
      var others := SelectType(data[1..], t, false);
      var first := YearRows(t, g);
      var rest := Rollup(others);
      assert Rollup(data) == first + rest;
      KeysConcat(first, rest);
      OfTypeSelectType(data, t);
      YearRowsKeys(t, g);
      RollupKeys(others);
      TypeSplitMembers(data);
      forall x
        ensures x in data <==> x in Keys(first) + Keys(rest)
      {
        assert x in Keys(first) + Keys(rest) <==> x in Keys(first) || x in Keys(rest);
      }
      NoDuplicatesAppend(Keys(first), Keys(rest));
    }
  }

  /** The records are split between the head's type group and the records
      of other types after the head. */
  lemma {:induction false} TypeSplitMembers(data: seq<Record>)
    requires |data| > 0
    ensures forall x :: x in data <==>
      x in SelectType(data, data[0].disasterType, true) || x in SelectType(data[1..], data[0].disasterType, false)
    ensures forall x :: x in SelectType(data[1..], data[0].disasterType, false) ==> x.disasterType != data[0].disasterType
    ensures forall x :: x in SelectType(data, data[0].disasterType, true) ==> x.disasterType == data[0].disasterType
  {
    var t := data[0].disasterType;
    SelectTypeCounts(data, t, true);
    SelectTypeCounts(data[1..], t, false);
    assert data == [data[0]] + data[1..];
  }

  /** Each rollup row's value is the number of records with its (type, year)
      key, so it is at least one: no zero-filled row exists. */
  lemma {:induction false} RollupValues(data: seq<Record>)
    ensures ValuesCount(Rollup(data), data)
    decreases |data|
  {
    if |data| > 0 {
      var t := data[0].disasterType;
      var g := SelectType(data, t, true);
      var others := SelectType(data[1..], t, false);
      var first := YearRows(t, g);
      var rest := Rollup(others);
      var rows := Rollup(data);
      assert rows == first + rest;
      RollupValues(others);
      forall i | 0 <= i < |rows|
        ensures rows[i].value == multiset(data)[Key(rows[i])] >= 1
      {
        if i < |first| {
          RowOfFirstGroup(data, first, i);
        } else {
          RowOfLaterGroup(data, rest, i - |first|);
          assert rows[i] == rest[i - |first|];
        }
      }
    }
  }

  lemma {:induction false} RowOfFirstGroup(data: seq<Record>, first: seq<MetricRow>, i: nat)
    requires |data| > 0
    requires first == YearRows(data[0].disasterType, SelectType(data, data[0].disasterType, true))
    requires i < |first|
    ensures first[i].value == multiset(data)[Key(first[i])] >= 1
  {
    var t := data[0].disasterType;
    var g := SelectType(data, t, true);
    OfTypeSelectType(data, t);
    SelectTypeCounts(data, t, true);
    YearRowsValues(t, g);
    YearRowsKeys(t, g);
    var k := Key(first[i]);
    assert k in Keys(first);
    assert k in g;
  }

  lemma {:induction false} RowOfLaterGroup(data: seq<Record>, rest: seq<MetricRow>, i: nat)
    requires |data| > 0
    requires rest == Rollup(SelectType(data[1..], data[0].disasterType, false))
    requires ValuesCount(rest, SelectType(data[1..], data[0].disasterType, false))
    requires i < |rest|
    ensures rest[i].value == multiset(data)[Key(rest[i])] >= 1
  {
    var t := data[0].disasterType;
    var others := SelectType(data[1..], t, false);
    var k := Key(rest[i]);
    assert Keys(rest)[i] == k;
    RollupKeys(others);
    SelectTypeCounts(data[1..], t, false);
    assert k in others;
    CountBeyondHead(data, k);
  }

  /** Only the head of `s` is missing from its tail. */
  lemma {:induction false} CountBeyondHead(s: seq<Record>, x: Record)
    requires |s| > 0 && x != s[0]
    ensures multiset(s)[x] == multiset(s[1..])[x]
  {
    assert s == [s[0]] + s[1..];
    assert multiset(s) == multiset{s[0]} + multiset(s[1..]);
  }

  /** The rollup's values add up to the number of records. */
  lemma {:induction false} RollupTotal(data: seq<Record>)
    ensures Total(Rollup(data)) == |data|
    decreases |data|
  {
    if |data| > 0 {
      var t := data[0].disasterType;
      var g := SelectType(data, t, true);
      var others := SelectType(data[1..], t, false);
      assert Rollup(data) == YearRows(t, g) + Rollup(others);
      YearRowsTotal(t, g);
      RollupTotal(others);
      TotalConcat(YearRows(t, g), Rollup(others));
      SelectTypeSplit(data, t);
      assert data == [data[0]] + data[1..];
      assert SelectType(data, t, false) == others;
    }
  }

  /** Keys strictly ascending under the pre-sort comparator. */
  predicate StrictlyAscending(ks: seq<Record>) {
    forall i, j :: 0 <= i < j < |ks| ==> CompareRecords(ks[i], ks[j]) < 0
  }

  lemma {:induction false} StrictlyAscendingAppend(a: seq<Record>, b: seq<Record>)
    requires StrictlyAscending(a) && StrictlyAscending(b)
    requires forall x, y :: x in a && y in b ==> CompareRecords(x, y) < 0
    ensures StrictlyAscending(a + b)
  {
    var r := a + b;
    forall i, j | 0 <= i < j < |r|
      ensures CompareRecords(r[i], r[j]) < 0
    {
      if j < |a| {
        assert r[i] == a[i] && r[j] == a[j];
      } else if i >= |a| {
        assert r[i] == b[i - |a|] && r[j] == b[j - |a|];
      } else {
        assert r[i] == a[i] && r[j] == b[j - |a|];
        assert r[i] in a && r[j] in b;
      }
    }
  }

  lemma {:induction false} YearRowsAscending(t: string, g: seq<Record>)
    requires OfType(g, t)
    requires RecordsSorted(g)
    ensures StrictlyAscending(Keys(YearRows(t, g)))
    decreases |g|
  {
    if |g| > 0 {
      var y := g[0].year;
      var g' := SelectYear(g[1..], y, false);
      var rest := YearRows(t, g');
      OfTypeSelectYear(g, t, y);
      SelectYearCounts(g[1..], y, false);
      SortedTail(g);
      SelectYearSorted(g[1..], y, false);
      YearRowsAscending(t, g');
      YearRowsKeys(t, g');
      YearRowsUnfold(t, g);
      forall x, k | x in [g[0]] && k in Keys(rest)
        ensures CompareRecords(x, k) < 0
      {
        assert k in g';
        assert k in g;
        SortedHeadFirst(g, k);
      }
      StrictlyAscendingAppend([g[0]], Keys(rest));
    }
  }

  /** On records already in pre-sort order, the rollup's rows come out
      strictly ascending by (type, year). */
  lemma {:induction false} RollupAscending(data: seq<Record>)
    requires RecordsSorted(data)
    ensures StrictlyAscending(Keys(Rollup(data)))
    decreases |data|
  {
    if |data| > 0 {
      var t := data[0].disasterType;
      var g := SelectType(data, t, true);
      var others := SelectType(data[1..], t, false);
      var first := YearRows(t, g);
      var rest := Rollup(others);
      assert Rollup(data) == first + rest;
      OfTypeSelectType(data, t);
      SelectTypeCounts(data, t, true);
      SelectTypeCounts(data[1..], t, false);
      SelectTypeSorted(data, t, true);
      SortedTail(data);
      SelectTypeSorted(data[1..], t, false);
      YearRowsAscending(t, g);
      RollupAscending(others);
      YearRowsKeys(t, g);
      RollupKeys(others);
      forall x, k | x in Keys(first) && k in Keys(rest)
        ensures CompareRecords(x, k) < 0
      {
        assert x in g && k in others;
        assert k in data;
        SortedHeadFirst(data, k);
      }
      StrictlyAscendingAppend(Keys(first), Keys(rest));
      KeysConcat(first, rest);
    }
  }
}
