/** Strict total orders, Python's `sorted(set(...))` as insertion in ascending order, and code-point order of strings. */
module Ordering {

  ghost predicate StrictTotal<T(!new)>(less: (T, T) -> bool) {
    && (forall a :: !less(a, a))
    && (forall a, b :: a == b || less(a, b) || less(b, a))
    && (forall a, b, c :: less(a, b) && less(b, c) ==> less(a, c))
  }

  ghost predicate Ascending<T>(less: (T, T) -> bool, s: seq<T>) {
    forall i, j :: 0 <= i < j < |s| ==> less(s[i], s[j])
  }

  function Insert<T(==)>(less: (T, T) -> bool, x: T, s: seq<T>): seq<T> {
    if s == [] then [x]
    else if x == s[0] then s
    else if less(x, s[0]) then [x] + s
    else [s[0]] + Insert(less, x, s[1..])
  }

  /** `sorted(set(items))`: duplicates dropped, the rest in ascending order. */
  function SortedDistinct<T(==)>(less: (T, T) -> bool, items: seq<T>): seq<T> {
    if items == [] then [] else Insert(less, items[0], SortedDistinct(less, items[1..]))
  }

  lemma {:induction false} InsertKeepsElements<T(!new)>(less: (T, T) -> bool, x: T, s: seq<T>)
    ensures forall y :: y in Insert(less, x, s) <==> y == x || y in s
    ensures |Insert(less, x, s)| <= |s| + 1
  {
    if s != [] && x != s[0] && !less(x, s[0]) {
      InsertKeepsElements(less, x, s[1..]);
      assert s == [s[0]] + s[1..];
    }
  }

  lemma {:induction false} InsertAscending<T(!new)>(less: (T, T) -> bool, x: T, s: seq<T>)
    requires StrictTotal(less) && Ascending(less, s)
    ensures Ascending(less, Insert(less, x, s))
  {
    if s != [] && x != s[0] && !less(x, s[0]) {
      var rest := Insert(less, x, s[1..]);
      InsertAscending(less, x, s[1..]);
      InsertKeepsElements(less, x, s[1..]);
      forall j | 0 <= j < |rest| ensures less(s[0], rest[j]) {
        assert rest[j] == x || rest[j] in s[1..];
      }
    }
  }

  /** The sort keeps exactly the given elements, each once, in ascending order. */
  lemma {:induction false} SortedDistinctCorrect<T(!new)>(less: (T, T) -> bool, items: seq<T>)
    requires StrictTotal(less)
    ensures Ascending(less, SortedDistinct(less, items))
    ensures forall y :: y in SortedDistinct(less, items) <==> y in items
    ensures |SortedDistinct(less, items)| <= |items|
  {
    if items != [] {
      SortedDistinctCorrect(less, items[1..]);
      InsertAscending(less, items[0], SortedDistinct(less, items[1..]));
      InsertKeepsElements(less, items[0], SortedDistinct(less, items[1..]));
      assert items == [items[0]] + items[1..];
    }
  }

  /** An ascending sequence is determined by its set of elements. */
  lemma {:induction false} AscendingUnique<T(!new)>(less: (T, T) -> bool, a: seq<T>, b: seq<T>)
    requires StrictTotal(less) && Ascending(less, a) && Ascending(less, b)
    requires forall y :: y in a <==> y in b
    ensures a == b
  {
    assert b != [] ==> b[0] in a;
    if a != [] {
      assert a[0] in b && b != [];
      assert b[0] in a;
      assert a[0] == b[0];
      forall y ensures y in a[1..] <==> y in b[1..] {
        assert a[0] !in a[1..] && b[0] !in b[1..];
        assert y in a <==> y == a[0] || y in a[1..] by { assert a == [a[0]] + a[1..]; }
        assert y in b <==> y == b[0] || y in b[1..] by { assert b == [b[0]] + b[1..]; }
      }
      AscendingUnique(less, a[1..], b[1..]);
      assert a == [a[0]] + a[1..] && b == [b[0]] + b[1..];
    }
  }

  /** So the sort depends only on the set of elements. */
  lemma SortedDistinctSame<T(!new)>(less: (T, T) -> bool, a: seq<T>, b: seq<T>)
    requires StrictTotal(less) && forall y :: y in a <==> y in b
    ensures SortedDistinct(less, a) == SortedDistinct(less, b)
  {
    SortedDistinctCorrect(less, a);
    SortedDistinctCorrect(less, b);
    AscendingUnique(less, SortedDistinct(less, a), SortedDistinct(less, b));
  }

  /** In an ascending sequence the elements before position i are exactly those less than s[i]. */
  lemma AscendingBefore<T(!new)>(less: (T, T) -> bool, s: seq<T>, i: nat, x: T)
    requires StrictTotal(less) && Ascending(less, s) && i < |s|
    ensures x in s[..i] <==> x in s && less(x, s[i])
  {
    if x in s && less(x, s[i]) {
      var j :| 0 <= j < |s| && s[j] == x;
      assert j < i;
      assert s[..i][j] == x;
    }
  }

  /** Python's string comparison: lexicographic by code point. */
  predicate StringLess(a: string, b: string) {
    b != [] && (a == [] || a[0] < b[0] || (a[0] == b[0] && StringLess(a[1..], b[1..])))
  }

  lemma {:induction false} StringLessTotal(a: string, b: string)
    ensures !StringLess(a, a)
    ensures a == b || StringLess(a, b) || StringLess(b, a)
  {
    if a != [] {
      StringLessTotal(a[1..], if b == [] then [] else b[1..]);
      if b != [] && a[0] == b[0] && a[1..] == b[1..] {
        assert a == [a[0]] + a[1..] && b == [b[0]] + b[1..];
      }
    }
  }

  lemma {:induction false} StringLessTransitive(a: string, b: string, c: string)
    requires StringLess(a, b) && StringLess(b, c)
    ensures StringLess(a, c)
  {
    if a != [] && a[0] == b[0] == c[0] {
      StringLessTransitive(a[1..], b[1..], c[1..]);
    }
  }

  lemma {:induction false} StringLessStrictTotal()
    ensures StrictTotal(StringLess)
  {
    forall a: string, b: string
      ensures !StringLess(a, a) && (a == b || StringLess(a, b) || StringLess(b, a))
    {
      StringLessTotal(a, b);
    }
    forall a: string, b: string, c: string | StringLess(a, b) && StringLess(b, c)
      ensures StringLess(a, c)
    {
      StringLessTransitive(a, b, c);
    }
  }
}
