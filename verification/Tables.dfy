/** Looking up the first row of a table kept in insertion order that passes a test, and comparing the sizes of key sets. */
module Tables {

  /** The position of the first row that meets the condition, or the number of rows. */
  function FirstIndex<T>(rows: seq<T>, p: T -> bool): (r: nat)
    ensures r <= |rows| && (r < |rows| ==> p(rows[r]))
    ensures forall i :: 0 <= i < r ==> !p(rows[i])
  {
    if rows == [] || p(rows[0]) then 0 else 1 + FirstIndex(rows[1..], p)
  }

  lemma {:induction false} SubsetSize<T>(a: set<T>, b: set<T>)
    requires a <= b
    ensures |a| <= |b|
  {
    if a != {} {
      var x :| x in a;
      SubsetSize(a - {x}, b - {x});
    }
  }
}
