/** The loaded rows of the disaster dataset, the filter that keeps the usable
    ones, and the sort by (disaster type, year) applied before grouping. */
module Records {
  import opened Wrappers
  import opened Order

  /** One parsed CSV row: the `Disaster.Type` field and the `Start.Year` field,
      which is None when it did not coerce to a number. */
  datatype RawRecord = RawRecord(disasterType: string, year: Option<int>)

  /** A row that passed the filter. It is also the grouping key (type, year). */
  datatype Record = Record(disasterType: string, year: int)

  /** The filter's test: a truthy type (a non-empty string) and a year that
      is not null. */
  predicate IsValid(r: RawRecord) {
    r.disasterType != [] && r.year.Some?
  }

  /** The raw row a valid record came from. */
  function AsRaw(x: Record): RawRecord {
    RawRecord(x.disasterType, Some(x.year))
  }

  /** `rawData.filter(d => d.disasterType && d.year !== null)`. Every kept
      record has a non-empty type. */
  function FilterValid(raw: seq<RawRecord>): (r: seq<Record>)
    ensures |r| <= |raw|
    ensures forall i :: 0 <= i < |r| ==> r[i].disasterType != []
  {
    if |raw| == 0 then []
    else
      var head := raw[0];
      var rest := FilterValid(raw[1..]);
      if IsValid(head) then [Record(head.disasterType, head.year.value)] + rest
      else rest
  }

  /** Nothing passes the filter exactly when no row is usable. */
  lemma {:induction false} FilterValidEmpty(raw: seq<RawRecord>)
    ensures FilterValid(raw) == [] <==> forall r :: r in raw ==> !IsValid(r)
  {
    if |raw| > 0 {
      FilterValidEmpty(raw[1..]);
      assert raw == [raw[0]] + raw[1..];
    }
  }

  /** Each valid record occurs in the filter's result as often as its raw row
      occurs in the input; invalid rows are dropped. */
  lemma {:induction false} FilterValidCounts(raw: seq<RawRecord>)
    ensures forall x ::
      multiset(FilterValid(raw))[x] == (if x.disasterType == [] then 0 else multiset(raw)[AsRaw(x)])
  {
    if |raw| > 0 {
      var rest := FilterValid(raw[1..]);
      FilterValidCounts(raw[1..]);
      assert raw == [raw[0]] + raw[1..];
      assert multiset(raw) == multiset{raw[0]} + multiset(raw[1..]);
      if IsValid(raw[0]) {
        var x := Record(raw[0].disasterType, raw[0].year.value);
        assert FilterValid(raw) == [x] + rest;
        assert multiset(FilterValid(raw)) == multiset{x} + multiset(rest);
        assert AsRaw(x) == raw[0];
      } else {
        assert FilterValid(raw) == rest;
      }
    }
  }

  /** The filter works row by row: filtering a concatenation is the
      concatenation of the filtered parts, so kept rows stay in input order. */
  lemma {:induction false} FilterValidConcat(a: seq<RawRecord>, b: seq<RawRecord>)
    ensures FilterValid(a + b) == FilterValid(a) + FilterValid(b)
  {
    if |a| > 0 {
      assert (a + b)[1..] == a[1..] + b;
      FilterValidConcat(a[1..], b);
    } else {
      assert a + b == b;
    }
  }

  /** A single row is kept, as the record it denotes, exactly when it is valid. */
  lemma {:induction false} FilterValidSingle(r: RawRecord)
    ensures IsValid(r) ==> FilterValid([r]) == [Record(r.disasterType, r.year.value)]
    ensures !IsValid(r) ==> FilterValid([r]) == []
  {
  }

  /** The pre-sort comparator:
      `d3.ascending(a.disasterType, b.disasterType) || d3.ascending(a.year, b.year)`.
      The year is compared only when the types tie. */
  function CompareRecords(a: Record, b: Record): (c: int)
    ensures c == 0 <==> a == b
    ensures c < 0 <==> StrBelow(a.disasterType, b.disasterType)
                       || (a.disasterType == b.disasterType && a.year < b.year)
  {
    var byType := AscendingStr(a.disasterType, b.disasterType);
    if byType != 0 then byType else AscendingInt(a.year, b.year)
  }

  /** Swapping the records flips the comparator's sign. */
  lemma {:induction false} CompareRecordsFlip(a: Record, b: Record)
    ensures CompareRecords(a, b) < 0 <==> CompareRecords(b, a) > 0
  {
    if a.disasterType != b.disasterType {
      StrBelowTotal(a.disasterType, b.disasterType);
      if StrBelow(a.disasterType, b.disasterType) {
        StrBelowAsymmetric(a.disasterType, b.disasterType);
      }
    }
  }

  lemma {:induction false} CompareRecordsTransitive(a: Record, b: Record, c: Record)
    requires CompareRecords(a, b) <= 0 && CompareRecords(b, c) <= 0
    ensures CompareRecords(a, c) <= 0
  {
    if a != b && b != c && a.disasterType != b.disasterType && b.disasterType != c.disasterType {
      StrBelowTransitive(a.disasterType, b.disasterType, c.disasterType);
    }
  }

  /** Sorted by the pre-sort comparator: no record is after one it precedes. */
  predicate RecordsSorted(s: seq<Record>) {
    forall i, j :: 0 <= i < j < |s| ==> CompareRecords(s[i], s[j]) <= 0
  }

  lemma {:induction false} SortedTail(s: seq<Record>)
    requires RecordsSorted(s) && |s| > 0
    ensures RecordsSorted(s[1..])
  {
    forall i, j | 0 <= i < j < |s[1..]|
      ensures CompareRecords(s[1..][i], s[1..][j]) <= 0
    {
      assert s[1..][i] == s[i + 1] && s[1..][j] == s[j + 1];
    }
  }

  /** A record that precedes every record of a sorted sequence can go in front. */
  lemma {:induction false} SortedCons(x: Record, s: seq<Record>)
    requires RecordsSorted(s)
    requires forall e :: e in s ==> CompareRecords(x, e) <= 0
    ensures RecordsSorted([x] + s)
  {
    var r := [x] + s;
    forall i, j | 0 <= i < j < |r|
      ensures CompareRecords(r[i], r[j]) <= 0
    {
      assert r[j] == s[j - 1];
      if i > 0 {
        assert r[i] == s[i - 1];
      }
    }
  }

  /** `x` may go in front of a sorted sequence whose head it does not follow. */
  lemma {:induction false} InsertRecordInFront(x: Record, s: seq<Record>)
    requires RecordsSorted(s) && |s| > 0 && CompareRecords(x, s[0]) <= 0
    ensures RecordsSorted([x] + s)
  {
    forall e | e in s
      ensures CompareRecords(x, e) <= 0
    {
      SortedHeadFirst(s, e);
      CompareRecordsTransitive(x, s[0], e);
    }
    SortedCons(x, s);
  }

  /** `x` follows the head of `s`, and `rest` is a sorted permutation of the
      tail with `x` added: the head goes in front of `rest`. */
  lemma {:induction false} InsertRecordBehindHead(x: Record, s: seq<Record>, rest: seq<Record>)
    requires RecordsSorted(s) && |s| > 0 && CompareRecords(x, s[0]) > 0
    requires multiset(rest) == multiset(s[1..]) + multiset{x}
    requires RecordsSorted(rest)
    ensures multiset([s[0]] + rest) == multiset(s) + multiset{x}
    ensures RecordsSorted([s[0]] + rest)
  {
    assert s == [s[0]] + s[1..];
    CompareRecordsFlip(x, s[0]);
    forall e | e in rest
      ensures CompareRecords(s[0], e) <= 0
    {
      assert e in multiset(rest);
      if e != x {
        SortedHeadFirst(s, e);
      }
    }
    SortedCons(s[0], rest);
  }

  /** Places `x` before the first record it does not follow. */
  function InsertRecord(x: Record, s: seq<Record>): (r: seq<Record>)
    requires RecordsSorted(s)
    ensures multiset(r) == multiset(s) + multiset{x}
    ensures RecordsSorted(r)
  {
    if |s| == 0 then [x]
    else if CompareRecords(x, s[0]) <= 0 then
      InsertRecordInFront(x, s);
      [x] + s
    else
      SortedTail(s);
      var rest := InsertRecord(x, s[1..]);
      InsertRecordBehindHead(x, s, rest);
      [s[0]] + rest
  }

  /** The pre-sort, `.sort(comparator)` on the filtered rows: a permutation
      of its input, ordered by type ascending and then year ascending. */
  function SortRecords(s: seq<Record>): (r: seq<Record>)
    ensures multiset(r) == multiset(s)
    ensures RecordsSorted(r)
  {
    if |s| == 0 then []
    else
      assert s == [s[0]] + s[1..];
      InsertRecord(s[0], SortRecords(s[1..]))
  }

  /** The first record of a sorted sequence precedes every record in it. */
  lemma {:induction false} SortedHeadFirst(s: seq<Record>, x: Record)
    requires RecordsSorted(s) && x in s
    ensures CompareRecords(s[0], x) <= 0
  {
    var k :| 0 <= k < |s| && s[k] == x;
  }

  /** A sorted permutation is unique: the comparator's ties are equal
      records, so the pre-sort's result does not depend on the sorting
      algorithm or its stability. */
  lemma {:induction false} SortedPermutationUnique(a: seq<Record>, b: seq<Record>)
    requires RecordsSorted(a) && RecordsSorted(b)
    requires multiset(a) == multiset(b)
    ensures a == b
  {
    if |a| > 0 {
      assert a[0] in multiset(b) && b[0] in multiset(a);
      SortedHeadFirst(a, b[0]);
      SortedHeadFirst(b, a[0]);
      CompareRecordsFlip(a[0], b[0]);
      assert a[0] == b[0];
      assert multiset(a) == multiset{a[0]} + multiset(a[1..]) by {
        assert a == [a[0]] + a[1..];
      }
      assert multiset(b) == multiset{b[0]} + multiset(b[1..]) by {
        assert b == [b[0]] + b[1..];
      }
      assert multiset(a[1..]) == multiset(a) - multiset{a[0]};
      assert multiset(b[1..]) == multiset(b) - multiset{b[0]};
      SortedTail(a);
      SortedTail(b);
      SortedPermutationUnique(a[1..], b[1..]);
      assert a == [a[0]] + a[1..] && b == [b[0]] + b[1..];
    } else {
      assert |multiset(b)| == 0;
    }
  }
}
