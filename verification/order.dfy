/** The orderings the chart relies on: JavaScript's `<` on strings and the
    three-way comparators `d3.ascending` and `d3.descending`, which return a
    negative number, zero or a positive number. */
module Order {

  /** JavaScript's `a < b` on two strings: lexicographic comparison of the
      characters, where a proper prefix comes first. */
  predicate StrBelow(a: string, b: string)
    decreases |a|
  {
    if |b| == 0 then false
    else if |a| == 0 then true
    else if a[0] != b[0] then a[0] < b[0]
    else StrBelow(a[1..], b[1..])
  }

  lemma {:induction false} StrBelowIrreflexive(a: string)
    ensures !StrBelow(a, a)
    decreases |a|
  {
    if |a| > 0 {
      StrBelowIrreflexive(a[1..]);
    }
  }

  lemma {:induction false} StrBelowAsymmetric(a: string, b: string)
    requires StrBelow(a, b)
    ensures !StrBelow(b, a)
    decreases |a|
  {
    if |a| > 0 && a[0] == b[0] {
      StrBelowAsymmetric(a[1..], b[1..]);
    }
  }

  lemma {:induction false} StrBelowTransitive(a: string, b: string, c: string)
    requires StrBelow(a, b) && StrBelow(b, c)
    ensures StrBelow(a, c)
    decreases |a|
  {
    if |a| > 0 && a[0] == b[0] && b[0] == c[0] {
      StrBelowTransitive(a[1..], b[1..], c[1..]);
    }
  }

  /** Any two different strings are ordered one way or the other. */
  lemma {:induction false} StrBelowTotal(a: string, b: string)
    ensures a == b || StrBelow(a, b) || StrBelow(b, a)
    decreases |a|
  {
    if |a| > 0 && |b| > 0 && a[0] == b[0] {
      StrBelowTotal(a[1..], b[1..]);
      if a[1..] == b[1..] {
        assert a == [a[0]] + a[1..] && b == [b[0]] + b[1..];
      }
    }
  }

  /** `d3.ascending(a, b)` on two strings. The result is zero exactly when the
      strings are equal, and swapping the arguments flips its sign. */
  function AscendingStr(a: string, b: string): (c: int)
    ensures c < 0 <==> StrBelow(a, b)
    ensures c > 0 <==> StrBelow(b, a)
    ensures c == 0 <==> a == b
  {
    StrBelowTotal(a, b);
    StrBelowIrreflexive(a);
    if StrBelow(a, b) then
      StrBelowAsymmetric(a, b);
      -1
    else if StrBelow(b, a) then 1
    else 0
  }

  /** `d3.ascending(a, b)` on two numbers. */
  function AscendingInt(a: int, b: int): (c: int)
    ensures c < 0 <==> a < b
    ensures c > 0 <==> b < a
  {
    if a < b then -1 else if a > b then 1 else 0
  }

  /** `d3.descending(a, b)` on two numbers: it orders `b` before `a`. */
  function DescendingInt(a: int, b: int): (c: int)
    ensures c < 0 <==> b < a
    ensures c > 0 <==> a < b
  {
    if b < a then -1 else if b > a then 1 else 0
  }

  /** `d3.ascending` on strings is a total preorder whose ties are equal
      strings: the properties a sort needs of its comparator. */
  lemma {:induction false} AscendingStrTransitive(a: string, b: string, c: string)
    requires AscendingStr(a, b) <= 0 && AscendingStr(b, c) <= 0
    ensures AscendingStr(a, c) <= 0
  {
    if a != b && b != c {
      StrBelowTransitive(a, b, c);
    }
  }
}
