/** Python's list comprehensions with an `if`: what they keep, how they compose, and when two of them select the same. */
module Lists {

  /** `[x for x in items if keep(x)]`. */
  function Filter<T>(items: seq<T>, keep: T -> bool): seq<T> {
    if items == [] then []
    else
      var k := |items| - 1;
      if keep(items[k]) then Filter(items[..k], keep) + [items[k]] else Filter(items[..k], keep)
  }

  lemma ConcatAssociative<T>(a: seq<T>, b: seq<T>, c: seq<T>)
    ensures (a + b) + c == a + (b + c)
  {
  }

  lemma FilterSnoc<T>(items: seq<T>, x: T, keep: T -> bool)
    ensures Filter(items + [x], keep) == if keep(x) then Filter(items, keep) + [x] else Filter(items, keep)
  {
    assert (items + [x])[..|items|] == items;
  }

  lemma {:induction false} FilterHolds<T>(items: seq<T>, keep: T -> bool)
    ensures forall i :: 0 <= i < |Filter(items, keep)| ==> keep(Filter(items, keep)[i])
  {
    if items != [] { FilterHolds(items[..|items| - 1], keep); }
  }

  lemma {:induction false} FilterConcat<T>(a: seq<T>, b: seq<T>, keep: T -> bool)
    ensures Filter(a + b, keep) == Filter(a, keep) + Filter(b, keep)
  {
    if b == [] {
      assert a + b == a;
    } else {
      var k := |b| - 1;
      FilterConcat(a, b[..k], keep);
      assert a + b == (a + b[..k]) + [b[k]] && b == b[..k] + [b[k]];
      FilterSnoc(a + b[..k], b[k], keep);
      FilterSnoc(b[..k], b[k], keep);
    }
  }

  lemma {:induction false} FilterMember<T>(items: seq<T>, keep: T -> bool, x: T)
    ensures x in Filter(items, keep) <==> x in items && keep(x)
  {
    if items != [] {
      var k := |items| - 1;
      FilterMember(items[..k], keep, x);
      assert items == items[..k] + [items[k]];
    }
  }

  /** A filter that every element passes keeps the list. */
  lemma {:induction false} FilterAll<T>(items: seq<T>, keep: T -> bool)
    requires forall x :: x in items ==> keep(x)
    ensures Filter(items, keep) == items
  {
    if items != [] {
      var k := |items| - 1;
      FilterAll(items[..k], keep);
      assert items[k] in items && items == items[..k] + [items[k]];
    }
  }

  /** Filters that agree on the elements give the same list. */
  lemma {:induction false} FilterAgree<T>(items: seq<T>, p: T -> bool, q: T -> bool)
    requires forall x :: x in items ==> p(x) == q(x)
    ensures Filter(items, p) == Filter(items, q)
  {
    if items != [] {
      FilterAgree(items[..|items| - 1], p, q);
    }
  }

  /** Filtering twice is filtering by the conjunction. */
  lemma {:induction false} FilterTwice<T>(items: seq<T>, p: T -> bool, q: T -> bool, both: T -> bool)
    requires forall x :: x in items ==> (both(x) <==> p(x) && q(x))
    ensures Filter(Filter(items, p), q) == Filter(items, both)
  {
    if items != [] {
      var k := |items| - 1;
      var inner := Filter(items[..k], p);
      FilterTwice(items[..k], p, q, both);
      if p(items[k]) {
        FilterSnoc(inner, items[k], q);
        assert Filter(items, p) == inner + [items[k]];
      } else {
        assert Filter(items, p) == inner;
      }
    }
  }

  /** When each kept element meets exactly one of two conditions, the two parts make up the whole. */
  lemma {:induction false} FilterSplit<T>(items: seq<T>, p: T -> bool, q: T -> bool, whole: T -> bool)
    requires forall x :: x in items ==> (whole(x) <==> p(x) || q(x)) && !(p(x) && q(x))
    ensures multiset(Filter(items, p)) + multiset(Filter(items, q)) == multiset(Filter(items, whole))
  {
    if items != [] {
      FilterSplit(items[..|items| - 1], p, q, whole);
    }
  }
}
