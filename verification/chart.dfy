/** The bar chart's data side: the slice of aggregated rows shown for the
    selected year (`getDataForYear`), its ordering by the sort control
    (`getSortedData`), the upper end of the value axis, and the view state
    (selected year and sort mode) that the slider and the sort control change. */
module Chart {
  import opened Wrappers
  import opened Order
  import opened Seqs
  import opened Rollup
  import opened Categories

  /** One visible bar `{disasterType, value}`. */
  datatype SliceRow = SliceRow(disasterType: string, value: nat)

  /** `getDataForYear(year)`: the aggregated rows of that year, in table
      order, projected to (type, value). */
  function DataForYear(rows: seq<MetricRow>, y: int): (slice: seq<SliceRow>)
    ensures |slice| <= |rows|
    ensures forall i :: 0 <= i < |slice| ==> MetricRow(slice[i].disasterType, y, slice[i].value) in rows
    ensures forall row :: row in rows && row.year == y ==> SliceRow(row.disasterType, row.value) in slice
    ensures slice == [] <==> forall row :: row in rows ==> row.year != y
  {
    if |rows| == 0 then []
    else
      var rest := DataForYear(rows[1..], y);
      assert rows == [rows[0]] + rows[1..];
      assert forall i :: 0 <= i < |rest| ==> MetricRow(rest[i].disasterType, y, rest[i].value) in rows[1..];
      if rows[0].year == y then [SliceRow(rows[0].disasterType, rows[0].value)] + rest
      else rest
  }

  /** The slice is taken row by row, so it keeps the table's order: the slice
      of a concatenation is the concatenation of the slices. */
  lemma {:induction false} DataForYearConcat(a: seq<MetricRow>, b: seq<MetricRow>, y: int)
    ensures DataForYear(a + b, y) == DataForYear(a, y) + DataForYear(b, y)
  {
    if |a| > 0 {
      assert (a + b)[1..] == a[1..] + b;
      DataForYearConcat(a[1..], b, y);
    } else {
      assert a + b == b;
    }
  }

  /** `newData.map(d => d.disasterType)`: the band scale's domain, one band
      per bar. */
  function BandDomain(slice: seq<SliceRow>): (ts: seq<string>)
    ensures |ts| == |slice|
    ensures forall i :: 0 <= i < |slice| ==> ts[i] == slice[i].disasterType
  {
    Map(slice, (bar: SliceRow) => bar.disasterType)
  }

  /** When the table has one row per (type, year), the slice of a year has at
      most one bar per type: the bars' join keys are distinct. */
  lemma {:induction false} SliceTypesDistinct(rows: seq<MetricRow>, y: int)
    requires NoDuplicates(Keys(rows))
    ensures NoDuplicates(BandDomain(DataForYear(rows, y)))
  {
    if |rows| > 0 {
      var rest := DataForYear(rows[1..], y);
      KeysTail(rows);
      NoDuplicatesTail(Keys(rows));
      SliceTypesDistinct(rows[1..], y);
      if rows[0].year == y {
        var head := SliceRow(rows[0].disasterType, rows[0].value);
        assert DataForYear(rows, y) == [head] + rest;
        HeadTypeNotLater(rows, y);
        NoDuplicatesCons(head.disasterType, BandDomain(rest));
        BandDomainCons(head, rest);
      } else {
        assert DataForYear(rows, y) == rest;
      }
    }
  }

  lemma {:induction false} BandDomainCons(p: SliceRow, s: seq<SliceRow>)
    ensures BandDomain([p] + s) == [p.disasterType] + BandDomain(s)
  {
    var l := BandDomain([p] + s);
    var r := [p.disasterType] + BandDomain(s);
    forall i | 0 <= i < |l|
      ensures l[i] == r[i]
    {
      if i > 0 {
        assert ([p] + s)[i] == s[i - 1];
      }
    }
  }

  /** The first row's type has no other row in its year. */
  lemma {:induction false} HeadTypeNotLater(rows: seq<MetricRow>, y: int)
    requires NoDuplicates(Keys(rows)) && |rows| > 0 && rows[0].year == y
    ensures rows[0].disasterType !in BandDomain(DataForYear(rows[1..], y))
  {
    var rest := DataForYear(rows[1..], y);
    KeysTail(rows);
    NoDuplicatesTail(Keys(rows));
    forall k | 0 <= k < |rest|
      ensures rest[k].disasterType != rows[0].disasterType
    {
      var row := MetricRow(rest[k].disasterType, y, rest[k].value);
      assert row in rows[1..];
      var m :| 0 <= m < |rows[1..]| && rows[1..][m] == row;
      assert Keys(rows[1..])[m] == Key(row);
    }
  }

  /** A sort direction of the sort control. */
  datatype Direction = Up | Down

  /** What the sort control's value selects. */
  datatype SortMode = Unsorted | ByValue(direction: Direction)

  /** The sort control's value: `'cntAsce'` sorts by count ascending,
      `'cntDesc'` by count descending, and any other value leaves the slice
      in table order. */
  function ParseSortMode(s: string): (m: SortMode)
    ensures m == ByValue(Up) <==> s == "cntAsce"
    ensures m == ByValue(Down) <==> s == "cntDesc"
  {
    if s == "cntAsce" then ByValue(Up)
    else if s == "cntDesc" then ByValue(Down)
    else Unsorted
  }

  /** The sort comparator: `d3.ascending(a.value, b.value)` or
      `d3.descending(a.value, b.value)`. */
  function CompareValues(dir: Direction, a: SliceRow, b: SliceRow): int {
    match dir
    case Up => AscendingInt(a.value, b.value)
    case Down => DescendingInt(a.value, b.value)
  }

  /** No bar is after one the comparator puts before it. */
  predicate SortedBy(dir: Direction, s: seq<SliceRow>) {
    forall i, j :: 0 <= i < j < |s| ==> CompareValues(dir, s[i], s[j]) <= 0
  }

  /** The bars of value `v`, in order: stability means a sort leaves each of
      these subsequences as it was. */
  function WithValue(s: seq<SliceRow>, v: nat): (r: seq<SliceRow>)
    ensures forall x :: x in r <==> x in s && x.value == v
  {
    if |s| == 0 then []
    else
      assert s == [s[0]] + s[1..];
      (if s[0].value == v then [s[0]] else []) + WithValue(s[1..], v)
  }

  lemma {:induction false} SortedByHead(dir: Direction, s: seq<SliceRow>, x: SliceRow)
    requires SortedBy(dir, s) && x in s
    ensures CompareValues(dir, s[0], x) <= 0
  {
    var k :| 0 <= k < |s| && s[k] == x;
  }

  lemma {:induction false} SortedByTail(dir: Direction, s: seq<SliceRow>)
    requires SortedBy(dir, s) && |s| > 0
    ensures SortedBy(dir, s[1..])
  {
    forall i, j | 0 <= i < j < |s[1..]|
      ensures CompareValues(dir, s[1..][i], s[1..][j]) <= 0
    {
      assert s[1..][i] == s[i + 1] && s[1..][j] == s[j + 1];
    }
  }

  lemma {:induction false} SortedByCons(dir: Direction, x: SliceRow, s: seq<SliceRow>)
    requires SortedBy(dir, s)
    requires forall e :: e in s ==> CompareValues(dir, x, e) <= 0
    ensures SortedBy(dir, [x] + s)
  {
    var r := [x] + s;
    forall i, j | 0 <= i < j < |r|
      ensures CompareValues(dir, r[i], r[j]) <= 0
    {
      assert r[j] == s[j - 1];
      if i > 0 {
        assert r[i] == s[i - 1];
      }
    }
  }

  /** The bars of value `v` in `[x] + s`. */
  lemma {:induction false} WithValueCons(x: SliceRow, s: seq<SliceRow>, v: nat)
    ensures x.value == v ==> WithValue([x] + s, v) == [x] + WithValue(s, v)
    ensures x.value != v ==> WithValue([x] + s, v) == WithValue(s, v)
  {
    assert ([x] + s)[1..] == s;
  }

  /** `x` may go in front of a sorted sequence whose head it does not follow. */
  lemma {:induction false} InsertInFront(dir: Direction, x: SliceRow, s: seq<SliceRow>)
    requires SortedBy(dir, s) && |s| > 0 && CompareValues(dir, x, s[0]) <= 0
    ensures SortedBy(dir, [x] + s)
    ensures forall v :: WithValue([x] + s, v) == if x.value == v then [x] + WithValue(s, v) else WithValue(s, v)
  {
    forall e | e in s
      ensures CompareValues(dir, x, e) <= 0
    {
      SortedByHead(dir, s, e);
    }
    SortedByCons(dir, x, s);
    forall v
      ensures WithValue([x] + s, v) == if x.value == v then [x] + WithValue(s, v) else WithValue(s, v)
    {
      WithValueCons(x, s, v);
    }
  }

  /** `x` strictly follows the head of `s`, and `rest` is a sorted
      permutation of the tail with `x` added: the head goes in front of `rest`. */
  lemma {:induction false} InsertBehindHead(dir: Direction, x: SliceRow, s: seq<SliceRow>, rest: seq<SliceRow>)
    requires SortedBy(dir, s) && |s| > 0
    requires multiset(rest) == multiset(s[1..]) + multiset{x}
    requires SortedBy(dir, rest)
    requires CompareValues(dir, x, s[0]) > 0
    ensures multiset([s[0]] + rest) == multiset(s) + multiset{x}
    ensures SortedBy(dir, [s[0]] + rest)
  {
    assert s == [s[0]] + s[1..];
    forall e | e in rest
      ensures CompareValues(dir, s[0], e) <= 0
    {
      assert e in multiset(rest);
      if e != x {
        SortedByHead(dir, s, e);
      }
    }
    SortedByCons(dir, s[0], rest);
  }

  /** The bars of each value when the head of `s` goes in front of `x`
      inserted into the tail: `x` has a different value from the head. */
  lemma {:induction false} InsertBehindHeadGroups(x: SliceRow, s: seq<SliceRow>, rest: seq<SliceRow>)
    requires |s| > 0 && x.value != s[0].value
    requires forall v :: WithValue(rest, v) == if x.value == v then [x] + WithValue(s[1..], v) else WithValue(s[1..], v)
    ensures forall v :: WithValue([s[0]] + rest, v) == if x.value == v then [x] + WithValue(s, v) else WithValue(s, v)
  {
    assert s == [s[0]] + s[1..];
    forall v
      ensures WithValue([s[0]] + rest, v) == if x.value == v then [x] + WithValue(s, v) else WithValue(s, v)
    {
      WithValueCons(s[0], rest, v);
      WithValueCons(s[0], s[1..], v);
      if s[0].value == v {
        assert WithValue([s[0]] + rest, v) == [s[0]] + WithValue(s[1..], v);
      } else if x.value == v {
        assert WithValue([s[0]] + rest, v) == [x] + WithValue(s[1..], v);
      }
    }
  }

  /** A lone bar is the only bar of its value. */
  lemma {:induction false} InsertIntoEmpty(x: SliceRow)
    ensures forall v :: WithValue([x], v) == if x.value == v then [x] + WithValue([], v) else WithValue([], v)
  {
    forall v
      ensures WithValue([x], v) == if x.value == v then [x] + WithValue([], v) else WithValue([], v)
    {
      WithValueCons(x, [], v);
      assert [x] + [] == [x];
    }
  }

  /** Places `x` before the first bar it does not follow: after every bar it
      strictly follows, and before the bars of its own value, which came later
      in the input. */
  function InsertByValue(dir: Direction, x: SliceRow, s: seq<SliceRow>): (r: seq<SliceRow>)
    requires SortedBy(dir, s)
    ensures multiset(r) == multiset(s) + multiset{x}
    ensures SortedBy(dir, r)
    ensures forall v :: WithValue(r, v) == if x.value == v then [x] + WithValue(s, v) else WithValue(s, v)
  {
    if |s| == 0 then
      InsertIntoEmpty(x);
      [x]
    else if CompareValues(dir, x, s[0]) <= 0 then
      InsertInFront(dir, x, s);
      [x] + s
    else
      SortedByTail(dir, s);
      var rest := InsertByValue(dir, x, s[1..]);
      InsertBehindHead(dir, x, s, rest);
      InsertBehindHeadGroups(x, s, rest);
      [s[0]] + rest
  }

  /** `dataset.sort(comparator)`, which is stable: a permutation of the slice,
      ordered by the comparator, that keeps bars of equal value in their
      previous relative order. */
  function StableSort(dir: Direction, s: seq<SliceRow>): (r: seq<SliceRow>)
    ensures multiset(r) == multiset(s)
    ensures SortedBy(dir, r)
    ensures forall v :: WithValue(r, v) == WithValue(s, v)
  {
    if |s| == 0 then []
    else
      var rest := StableSort(dir, s[1..]);
      var r := InsertByValue(dir, s[0], rest);
      assert s == [s[0]] + s[1..];
      assert forall v :: WithValue(r, v) == WithValue(s, v) by {
        forall v
          ensures WithValue(r, v) == WithValue(s, v)
        {
          WithValueCons(s[0], s[1..], v);
        }
      }
      r
  }

  /** The head of a sequence heads the bars of its value. */
  lemma {:induction false} WithValueHead(s: seq<SliceRow>)
    requires |s| > 0
    ensures WithValue(s, s[0].value) == [s[0]] + WithValue(s[1..], s[0].value)
  {
    WithValueCons(s[0], s[1..], s[0].value);
    assert s == [s[0]] + s[1..];
  }

  /** Bars the comparator orders both ways have equal values. */
  lemma {:induction false} CompareValuesTie(dir: Direction, a: SliceRow, b: SliceRow)
    requires CompareValues(dir, a, b) <= 0 && CompareValues(dir, b, a) <= 0
    ensures a.value == b.value
  {
  }

  /** Two sorted sequences with the same bars of each value start with the
      same bar. */
  lemma {:induction false} SortedGroupsHead(dir: Direction, a: seq<SliceRow>, b: seq<SliceRow>)
    requires SortedBy(dir, a) && SortedBy(dir, b) && |a| > 0
    requires forall v :: WithValue(a, v) == WithValue(b, v)
    ensures |b| > 0 && a[0] == b[0]
  {
    var v := a[0].value;
    WithValueHead(a);
    assert a[0] in WithValue(b, v);
    var w := b[0].value;
    WithValueHead(b);
    assert b[0] in WithValue(a, w);
    SortedByHead(dir, b, a[0]);
    SortedByHead(dir, a, b[0]);
    CompareValuesTie(dir, a[0], b[0]);
    assert WithValue(a, v)[0] == a[0];
    assert WithValue(b, v)[0] == b[0];
  }

  /** Dropping equal heads keeps the bars of each value equal. */
  lemma {:induction false} SortedGroupsTail(a: seq<SliceRow>, b: seq<SliceRow>)
    requires |a| > 0 && |b| > 0 && a[0] == b[0]
    requires forall v :: WithValue(a, v) == WithValue(b, v)
    ensures forall v :: WithValue(a[1..], v) == WithValue(b[1..], v)
  {
    assert a == [a[0]] + a[1..] && b == [b[0]] + b[1..];
    forall v
      ensures WithValue(a[1..], v) == WithValue(b[1..], v)
    {
      WithValueCons(a[0], a[1..], v);
      WithValueCons(b[0], b[1..], v);
      if a[0].value == v {
        assert [a[0]] + WithValue(a[1..], v) == [a[0]] + WithValue(b[1..], v);
        assert ([a[0]] + WithValue(a[1..], v))[1..] == WithValue(a[1..], v);
        assert ([a[0]] + WithValue(b[1..], v))[1..] == WithValue(b[1..], v);
      }
    }
  }

  /** Two sorted sequences with the same bars of each value are equal. */
  lemma {:induction false} SortedGroupsDetermine(dir: Direction, a: seq<SliceRow>, b: seq<SliceRow>)
    requires SortedBy(dir, a) && SortedBy(dir, b)
    requires forall v :: WithValue(a, v) == WithValue(b, v)
    ensures a == b
    decreases |a| + |b|
  {
    if |a| > 0 {
      SortedGroupsHead(dir, a, b);
      SortedGroupsTail(a, b);
      SortedByTail(dir, a);
      SortedByTail(dir, b);
      SortedGroupsDetermine(dir, a[1..], b[1..]);
      assert a == [a[0]] + a[1..] && b == [b[0]] + b[1..];
    } else if |b| > 0 {
      SortedGroupsHead(dir, b, a);
    }
  }

  /** The stable sort is the only sorted sequence that keeps every value's
      bars in their input order, whatever algorithm computes it. */
  lemma {:induction false} StableSortUnique(dir: Direction, s: seq<SliceRow>, r: seq<SliceRow>)
    requires SortedBy(dir, r)
    requires forall v :: WithValue(r, v) == WithValue(s, v)
    ensures r == StableSort(dir, s)
  {
    SortedGroupsDetermine(dir, r, StableSort(dir, s));
  }

  /** Sorting an already sorted slice again changes nothing. */
  lemma {:induction false} StableSortIdempotent(dir: Direction, s: seq<SliceRow>)
    ensures StableSort(dir, StableSort(dir, s)) == StableSort(dir, s)
  {
    var once := StableSort(dir, s);
    SortedGroupsDetermine(dir, StableSort(dir, once), once);
  }

  /** `getSortedData(year, sortMethod)`: the year's slice, sorted stably by
      value ascending for `'cntAsce'`, descending for `'cntDesc'`, and in
      table order otherwise. Sorting never adds or drops a bar. */
  function SortedData(rows: seq<MetricRow>, y: int, sortMethod: string): (slice: seq<SliceRow>)
    ensures multiset(slice) == multiset(DataForYear(rows, y))
    ensures sortMethod == "cntAsce" ==>
      SortedBy(Up, slice) && forall v :: WithValue(slice, v) == WithValue(DataForYear(rows, y), v)
    ensures sortMethod == "cntDesc" ==>
      SortedBy(Down, slice) && forall v :: WithValue(slice, v) == WithValue(DataForYear(rows, y), v)
    ensures sortMethod != "cntAsce" && sortMethod != "cntDesc" ==> slice == DataForYear(rows, y)
  {
    var dataset := DataForYear(rows, y);
    match ParseSortMode(sortMethod)
    case ByValue(dir) => StableSort(dir, dataset)
    case Unsorted => dataset
  }

  /** The bars' values, in order. */
  function Values(slice: seq<SliceRow>): (vs: seq<nat>)
    ensures |vs| == |slice|
    ensures forall i :: 0 <= i < |slice| ==> vs[i] == slice[i].value
  {
    seq(|slice|, i requires 0 <= i < |slice| => slice[i].value)
  }

  /** `d3.max(slice, d => d.value)`: undefined (None) for an empty slice,
      otherwise the largest value. */
  function MaxValue(slice: seq<SliceRow>): (m: Option<nat>)
    ensures m.None? <==> slice == []
    ensures m.Some? ==> m.value in Values(slice)
    ensures m.Some? ==> forall v :: v in Values(slice) ==> v <= m.value
  {
    if |slice| == 0 then None
    else
      var first := slice[0].value;
      assert Values(slice) == [first] + Values(slice[1..]);
      match MaxValue(slice[1..])
      case None => Some(first)
      case Some(m) => Some(if first >= m then first else m)
  }

  /** The value axis's upper end at the first render:
      `Math.max(d3.max(newData, d => d.value) || 0, 1)`. It is at least 1, is
      1 for an empty slice, bounds every value, and is 1 or some bar's value. */
  function InitialYUpper(slice: seq<SliceRow>): (u: int)
    ensures u >= 1
    ensures slice == [] ==> u == 1
    ensures forall v :: v in Values(slice) ==> v <= u
    ensures u == 1 || u in Values(slice)
  {
    var m := MaxValue(slice).GetOr(0);
    if m > 1 then m else 1
  }

  /** The value axis's upper end on update: `yMax === 0 ? 1 : yMax` with
      `yMax = d3.max(newData, d => d.value) || 0`. Bar values are counts, never
      negative, so the same guarantees hold. */
  function UpdateYUpper(slice: seq<SliceRow>): (u: int)
    ensures u >= 1
    ensures slice == [] ==> u == 1
    ensures forall v :: v in Values(slice) ==> v <= u
    ensures u == 1 || u in Values(slice)
  {
    var yMax := MaxValue(slice).GetOr(0);
    if yMax == 0 then 1 else yMax
  }

  /** The two formulas for the axis's upper end agree on every slice. */
  lemma {:induction false} YUpperAgree(slice: seq<SliceRow>)
    ensures InitialYUpper(slice) == UpdateYUpper(slice)
  {
    var m := MaxValue(slice);
    if m.Some? && m.value == 1 {
      assert InitialYUpper(slice) == 1 == UpdateYUpper(slice);
    }
  }

  /** For a non-empty slice of counts, which are at least one, the upper end
      is the largest count itself. */
  lemma {:induction false} YUpperIsMax(slice: seq<SliceRow>)
    requires slice != []
    requires forall i :: 0 <= i < |slice| ==> slice[i].value >= 1
    ensures UpdateYUpper(slice) == MaxValue(slice).value
  {
    var m := MaxValue(slice).value;
    var k :| 0 <= k < |Values(slice)| && Values(slice)[k] == m;
    assert slice[k].value == m;
  }

  /** The chart's state: the slider's year and the sort control's value. */
  datatype ViewState = ViewState(year: int, sortMethod: string)

  /** A change notification from the slider or the sort control. */
  datatype Event = YearChanged(year: int) | SortChanged(sortMethod: string)

  /** A change handler: the field its control owns takes the control's new
      value, and the other field is left as it was. */
  function Step(st: ViewState, ev: Event): (next: ViewState)
    ensures ev.YearChanged? ==> next.year == ev.year && next.sortMethod == st.sortMethod
    ensures ev.SortChanged? ==> next.sortMethod == ev.sortMethod && next.year == st.year
  {
    match ev
    case YearChanged(y) => st.(year := y)
    case SortChanged(m) => st.(sortMethod := m)
  }

  /** A reordering of a year's slice holds exactly the bars of that year's
      rows. */
  lemma {:induction false} ReorderedSliceMembers(rows: seq<MetricRow>, y: int, bars: seq<SliceRow>)
    requires multiset(bars) == multiset(DataForYear(rows, y))
    ensures forall b :: b in bars <==> MetricRow(b.disasterType, y, b.value) in rows
  {
    var data := DataForYear(rows, y);
    forall b
      ensures b in bars <==> MetricRow(b.disasterType, y, b.value) in rows
    {
      assert b in bars <==> b in multiset(data);
      if b in data {
        var k :| 0 <= k < |data| && data[k] == b;
      }
      if MetricRow(b.disasterType, y, b.value) in rows {
        assert SliceRow(b.disasterType, b.value) == b;
      }
    }
  }

  /** The bars rendered in a state: `getSortedData(currentYear, currentSort)`.
      They are the selected year's bars, ordered as the sort control says. */
  function Visible(rows: seq<MetricRow>, st: ViewState): (bars: seq<SliceRow>)
    ensures multiset(bars) == multiset(DataForYear(rows, st.year))
    ensures forall b :: b in bars <==> MetricRow(b.disasterType, st.year, b.value) in rows
    ensures st.sortMethod == "cntAsce" ==> SortedBy(Up, bars)
    ensures st.sortMethod == "cntDesc" ==> SortedBy(Down, bars)
    ensures st.sortMethod != "cntAsce" && st.sortMethod != "cntDesc" ==> bars == DataForYear(rows, st.year)
  {
    var bars := SortedData(rows, st.year, st.sortMethod);
    ReorderedSliceMembers(rows, st.year, bars);
    bars
  }

  /** Changing the sort mode reorders the bars but shows the same ones, so no
      bar enters or exits. */
  lemma {:induction false} SortChangeKeepsBars(rows: seq<MetricRow>, st: ViewState, m: string)
    ensures multiset(Visible(rows, Step(st, SortChanged(m)))) == multiset(Visible(rows, st))
  {
  }

  /** A year change shows that year's bars, ordered by the unchanged sort
      mode. */
  lemma {:induction false} YearChangeShowsYear(rows: seq<MetricRow>, st: ViewState, y: int)
    ensures multiset(Visible(rows, Step(st, YearChanged(y)))) == multiset(DataForYear(rows, y))
  {
  }

  /** Every bar of every state is a category of the table, so the colour
      scale knows it and gives it the slot of its category. */
  lemma {:induction false} VisibleBarsHaveColours(rows: seq<MetricRow>, st: ViewState)
    ensures forall i :: 0 <= i < |Visible(rows, st)| ==> Visible(rows, st)[i].disasterType in Categories.Categories(rows)
  {
    var slice := Visible(rows, st);
    forall i | 0 <= i < |slice|
      ensures slice[i].disasterType in Categories.Categories(rows)
    {
      var row := MetricRow(slice[i].disasterType, st.year, slice[i].value);
      var m :| 0 <= m < |rows| && rows[m] == row;
      assert Types(rows)[m] == row.disasterType;
    }
  }

  /** Bars of distinct types stay distinct under any permutation. */
  lemma {:induction false} BandDomainPermutation(s: seq<SliceRow>, r: seq<SliceRow>)
    requires NoDuplicates(BandDomain(s)) && multiset(s) == multiset(r)
    ensures NoDuplicates(BandDomain(r))
  {
    assert NoDuplicates(s) by {
      forall i, j | 0 <= i < j < |s|
        ensures s[i] != s[j]
      {
        assert BandDomain(s)[i] != BandDomain(s)[j];
      }
    }
    NoDuplicatesPermutation(s, r);
    forall i, j | 0 <= i < j < |r|
      ensures r[i].disasterType != r[j].disasterType
    {
      assert r[i] in multiset(s) && r[j] in multiset(s);
      var k :| 0 <= k < |s| && s[k] == r[i];
      var l :| 0 <= l < |s| && s[l] == r[j];
      if k != l {
        if k < l {
          assert BandDomain(s)[k] != BandDomain(s)[l];
        } else {
          assert BandDomain(s)[l] != BandDomain(s)[k];
        }
      }
    }
  }

  /** In every state each bar has its own band: the visible types are
      distinct whenever the table has one row per (type, year). */
  lemma {:induction false} VisibleBandsDistinct(rows: seq<MetricRow>, st: ViewState)
    requires NoDuplicates(Keys(rows))
    ensures NoDuplicates(BandDomain(Visible(rows, st)))
  {
    SliceTypesDistinct(rows, st.year);
    BandDomainPermutation(DataForYear(rows, st.year), Visible(rows, st));
  }
}
