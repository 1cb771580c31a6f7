/** The category list `Array.from(new Set(aggregated.map(d => d.disasterType))).sort(d3.ascending)`
    and the ordinal colour scale built over it. A colour is modelled by its
    position in the scale's range. */
module Categories {
  import opened Order
  import opened Seqs
  import opened Rollup

  /** `rows.map(d => d.disasterType)`. */
  function Types(rows: seq<MetricRow>): (ts: seq<string>)
    ensures |ts| == |rows|
    ensures forall i :: 0 <= i < |rows| ==> ts[i] == rows[i].disasterType
  {
    Map(rows, (row: MetricRow) => row.disasterType)
  }

  /** Ordered by `d3.ascending`: no string after one it precedes. */
  predicate StringsSorted(s: seq<string>) {
    forall i, j :: 0 <= i < j < |s| ==> AscendingStr(s[i], s[j]) <= 0
  }

  /** Strictly ascending under JavaScript's `<` on strings. */
  predicate StrictlyAscendingStrings(s: seq<string>) {
    forall i, j :: 0 <= i < j < |s| ==> StrBelow(s[i], s[j])
  }

  lemma {:induction false} StringsSortedHead(s: seq<string>, x: string)
    requires StringsSorted(s) && x in s
    ensures AscendingStr(s[0], x) <= 0
  {
    var k :| 0 <= k < |s| && s[k] == x;
  }

  lemma {:induction false} StringsSortedTail(s: seq<string>)
    requires StringsSorted(s) && |s| > 0
    ensures StringsSorted(s[1..])
  {
    forall i, j | 0 <= i < j < |s[1..]|
      ensures AscendingStr(s[1..][i], s[1..][j]) <= 0
    {
      assert s[1..][i] == s[i + 1] && s[1..][j] == s[j + 1];
    }
  }

  lemma {:induction false} StringsSortedCons(x: string, s: seq<string>)
    requires StringsSorted(s)
    requires forall e :: e in s ==> AscendingStr(x, e) <= 0
    ensures StringsSorted([x] + s)
  {
    var r := [x] + s;
    forall i, j | 0 <= i < j < |r|
      ensures AscendingStr(r[i], r[j]) <= 0
    {
      assert r[j] == s[j - 1];
      if i > 0 {
        assert r[i] == s[i - 1];
      }
    }
  }

  /** `x` may go in front of a sorted sequence whose head it does not follow. */
  lemma {:induction false} InsertStringInFront(x: string, s: seq<string>)
    requires StringsSorted(s) && |s| > 0 && AscendingStr(x, s[0]) <= 0
    ensures StringsSorted([x] + s)
  {
    forall e | e in s
      ensures AscendingStr(x, e) <= 0
    {
      StringsSortedHead(s, e);
      AscendingStrTransitive(x, s[0], e);
    }
    StringsSortedCons(x, s);
  }

  /** `x` follows the head of `s`, and `rest` is a sorted permutation of the
      tail with `x` added: the head goes in front of `rest`. */
  lemma {:induction false} InsertStringBehindHead(x: string, s: seq<string>, rest: seq<string>)
    requires StringsSorted(s) && |s| > 0 && AscendingStr(x, s[0]) > 0
    requires multiset(rest) == multiset(s[1..]) + multiset{x}
    requires StringsSorted(rest)
    ensures multiset([s[0]] + rest) == multiset(s) + multiset{x}
    ensures StringsSorted([s[0]] + rest)
  {
    assert s == [s[0]] + s[1..];
    forall e | e in rest
      ensures AscendingStr(s[0], e) <= 0
    {
      assert e in multiset(rest);
      if e != x {
        StringsSortedHead(s, e);
      }
    }
    StringsSortedCons(s[0], rest);
  }

  /** Places `x` before the first string it does not follow. */
  function InsertString(x: string, s: seq<string>): (r: seq<string>)
    requires StringsSorted(s)
    ensures multiset(r) == multiset(s) + multiset{x}
    ensures StringsSorted(r)
  {
    if |s| == 0 then [x]
    else if AscendingStr(x, s[0]) <= 0 then
      InsertStringInFront(x, s);
      [x] + s
    else
      StringsSortedTail(s);
      var rest := InsertString(x, s[1..]);
      InsertStringBehindHead(x, s, rest);
      [s[0]] + rest
  }

  /** `.sort(d3.ascending)` on strings: a permutation of its input, in order. */
  function SortStrings(s: seq<string>): (r: seq<string>)
    ensures multiset(r) == multiset(s)
    ensures StringsSorted(r)
  {
    if |s| == 0 then []
    else
      assert s == [s[0]] + s[1..];
      InsertString(s[0], SortStrings(s[1..]))
  }

  /** A sorted sequence without duplicates is strictly ascending. */
  lemma {:induction false} SortedDistinctIsStrict(s: seq<string>)
    requires StringsSorted(s) && NoDuplicates(s)
    ensures StrictlyAscendingStrings(s)
  {
    forall i, j | 0 <= i < j < |s|
      ensures StrBelow(s[i], s[j])
    {
      assert AscendingStr(s[i], s[j]) <= 0 && s[i] != s[j];
    }
  }

  /** The category list: the distinct types of the aggregated rows, sorted.
      It is strictly ascending (so free of duplicates) and holds exactly the
      types that occur in the rows. */
  function Categories(rows: seq<MetricRow>): (cats: seq<string>)
    ensures StrictlyAscendingStrings(cats)
    ensures NoDuplicates(cats)
    ensures forall t :: t in cats <==> t in Types(rows)
  {
    var distinct := Dedupe(Types(rows));
    var sorted := SortStrings(distinct);
    NoDuplicatesPermutation(distinct, sorted);
    SortedDistinctIsStrict(sorted);
    assert forall t :: t in sorted <==> t in multiset(distinct);
    sorted
  }

  /** A strictly ascending sequence is determined by its elements. */
  lemma {:induction false} StrictlyAscendingUnique(a: seq<string>, b: seq<string>)
    requires StrictlyAscendingStrings(a) && StrictlyAscendingStrings(b)
    requires forall x :: x in a <==> x in b
    ensures a == b
  {
    assert |a| > 0 ==> a[0] in b;
    assert |b| > 0 ==> b[0] in a;
    if |a| > 0 {
      if a[0] != b[0] {
        assert a[0] in b;
        var j :| 0 <= j < |b| && b[j] == a[0];
        assert b[0] in a;
        var k :| 0 <= k < |a| && a[k] == b[0];
        assert StrBelow(b[0], a[0]) && StrBelow(a[0], b[0]);
        StrBelowAsymmetric(a[0], b[0]);
      }
      forall x
        ensures x in a[1..] <==> x in b[1..]
      {
        assert x in a[1..] <==> x in a && x != a[0] by {
          assert a == [a[0]] + a[1..];
          if x in a[1..] {
            var k :| 0 <= k < |a[1..]| && a[1..][k] == x;
            assert a[k + 1] == x;
            StrBelowIrreflexive(x);
          }
        }
        assert x in b[1..] <==> x in b && x != b[0] by {
          assert b == [b[0]] + b[1..];
          if x in b[1..] {
            var k :| 0 <= k < |b[1..]| && b[1..][k] == x;
            assert b[k + 1] == x;
            StrBelowIrreflexive(x);
          }
        }
      }
      StrictlyAscendingUnique(a[1..], b[1..]);
      assert a == [a[0]] + a[1..] && b == [b[0]] + b[1..];
    }
  }

  /** The category list depends only on which types occur, not on the order
      or multiplicity of the rows: the colour assignment is stable. */
  lemma {:induction false} CategoriesDependOnTypesOnly(rows1: seq<MetricRow>, rows2: seq<MetricRow>)
    requires forall t :: t in Types(rows1) <==> t in Types(rows2)
    ensures Categories(rows1) == Categories(rows2)
  {
    StrictlyAscendingUnique(Categories(rows1), Categories(rows2));
  }

  /** The ordinal scale's domain index of `t`. `scaleOrdinal().domain(cats)`
      drops repeated values, so its index is the position in the
      de-duplicated list; it is the position of `t` in `cats` itself because
      the category list has no duplicates (`Categories`), which the
      precondition states. */
  function ColourIndex(cats: seq<string>, t: string): (i: nat)
    requires NoDuplicates(cats) && t in cats
    ensures i < |cats| && cats[i] == t
    ensures forall j :: 0 <= j < i ==> cats[j] != t
  {
    if cats[0] == t then 0
    else
      assert t in cats[1..] by {
        var k :| 0 <= k < |cats| && cats[k] == t;
        assert cats[1..][k - 1] == t;
      }
      NoDuplicatesTail(cats);
      1 + ColourIndex(cats[1..], t)
  }

  /** `colors(t)`: the range slot the ordinal scale gives `t`. The range has
      `Math.max(cats.length, 1)` colours and the scale takes the domain index
      modulo the range's length, which leaves it unchanged: the slot is the
      category's own position in the list. */
  function ColourSlot(cats: seq<string>, t: string): (slot: nat)
    requires NoDuplicates(cats) && t in cats
    ensures slot < |cats| && cats[slot] == t
  {
    var rangeSize := if |cats| >= 1 then |cats| else 1;
    var i := ColourIndex(cats, t);
    assert i % rangeSize == i;
    i % rangeSize
  }

  /** In a list without duplicates, a category's colour is its position. */
  lemma {:induction false} ColourSlotIsPosition(cats: seq<string>, j: nat)
    requires NoDuplicates(cats) && j < |cats|
    ensures ColourSlot(cats, cats[j]) == j
  {
    var slot := ColourSlot(cats, cats[j]);
    if slot < j {
      assert cats[slot] == cats[j];
    } else if slot > j {
      assert cats[j] == cats[slot];
    }
  }
}
