/** The optional value returned by a lookup that may find nothing. */
module Wrappers {
  datatype Option<T> = None | Some(value: T) {
    /** `dict.get(key, default)` and friends: the value, or the default when absent. */
    function GetOr(default: T): T {
      if Some? then value else default
    }
  }
}

/** The two queryset operations the core relies on, over a table read in stored order. */
module Query {
  import opened Wrappers

  /** `queryset.filter(p)`: exactly the rows that satisfy `p`, in stored order. */
  function Filter<T(!new)>(rows: seq<T>, p: T -> bool): (r: seq<T>)
    ensures |r| <= |rows|
    ensures forall x :: x in r <==> x in rows && p(x)
    ensures forall x :: multiset(r)[x] == if p(x) then multiset(rows)[x] else 0
  {
    if rows == [] then []
    else
      assert rows == [rows[0]] + rows[1..];
      (if p(rows[0]) then [rows[0]] else []) + Filter(rows[1..], p)
  }

  /** `queryset.filter(p).first()`: the first row satisfying `p`, if there is one. */
  function First<T(!new)>(rows: seq<T>, p: T -> bool): (r: Option<T>)
    ensures r.Some? ==> r.value in rows && p(r.value)
    ensures r.None? <==> forall x :: x in rows ==> !p(x)
  {
    if rows == [] then None
    else if p(rows[0]) then Some(rows[0])
    else
      assert rows == [rows[0]] + rows[1..];
      First(rows[1..], p)
  }

  /** `first()` returns the earliest matching row in stored order: every row
      before it fails `p`. This agrees with the primary-key order `first()` uses on
      an unordered queryset when rows are kept in key order. */
  lemma {:induction false} FirstIsEarliest<T(!new)>(rows: seq<T>, p: T -> bool)
    requires First(rows, p).Some?
    ensures exists i :: 0 <= i < |rows| && rows[i] == First(rows, p).value && forall j :: 0 <= j < i ==> !p(rows[j])
  {
    if p(rows[0]) {
      assert rows[0] == First(rows, p).value;
    } else {
      FirstIsEarliest(rows[1..], p);
      var i :| 0 <= i < |rows[1..]| && rows[1..][i] == First(rows[1..], p).value && forall j :: 0 <= j < i ==> !p(rows[1..][j]);
      assert rows[i + 1] == First(rows, p).value;
      forall j | 0 <= j < i + 1
        ensures !p(rows[j])
      {
        if j > 0 {
          assert rows[j] == rows[1..][j - 1];
        }
      }
    }
  }
}
