/**
 * The fragment of SQL semantics the transform queries rely on: nullable values, three-valued
 * comparison, `WHERE` filtering, column projection and `SELECT DISTINCT`. A table is a
 * sequence of rows; SQL leaves row order unspecified, so the properties proved about these
 * operations speak of membership, multiplicity and row counts.
 */
module Sql {

  /** A nullable column value: `None` is SQL NULL. */
  datatype Option<T> = None | Some(value: T)

  /** SQL's three truth values. */
  datatype Truth = True | False | Unknown

  /** `a = b`: UNKNOWN when either side is NULL, otherwise the comparison of the values. */
  function Equal<T(==)>(a: Option<T>, b: Option<T>): (r: Truth)
    ensures r == True <==> a.Some? && b.Some? && a.value == b.value
    ensures r == Unknown <==> a.None? || b.None?
  {
    if a.None? || b.None? then Unknown
    else if a.value == b.value then True
    else False
  }

  /** `a AND b` in three-valued logic: FALSE dominates, then UNKNOWN. */
  function And(a: Truth, b: Truth): (r: Truth)
    ensures r == True <==> a == True && b == True
    ensures r == False <==> a == False || b == False
  {
    if a == False || b == False then False
    else if a == True && b == True then True
    else Unknown
  }

  predicate NoDuplicates<T(==)>(s: seq<T>) {
    forall i, j | 0 <= i < j < |s| :: s[i] != s[j]
  }

  /** `WHERE p`: the rows satisfying p, in order and with their multiplicities. */
  function Filter<T(!new)>(p: T -> bool, s: seq<T>): (r: seq<T>)
    ensures |r| <= |s|
    ensures forall x :: x in r <==> x in s && p(x)
    ensures (forall x :: x in s ==> !p(x)) ==> r == []
  {
    if |s| == 0 then []
    else
      assert s == [s[0]] + s[1..];
      (if p(s[0]) then [s[0]] else []) + Filter(p, s[1..])
  }

  /** `WHERE` keeps every row that satisfies p as often as the table holds it, and drops the others. */
  lemma {:induction false} FilterMultiplicity<T(!new)>(p: T -> bool, s: seq<T>, x: T)
    ensures multiset(Filter(p, s))[x] == if p(x) then multiset(s)[x] else 0
  {
    if |s| > 0 {
      assert s == [s[0]] + s[1..];
      FilterMultiplicity(p, s[1..], x);
    }
  }

  lemma {:induction false} FilterAppend<T(!new)>(p: T -> bool, s: seq<T>, t: seq<T>)
    ensures Filter(p, s + t) == Filter(p, s) + Filter(p, t)
  {
    if |s| > 0 {
      assert (s + t)[1..] == s[1..] + t;
      FilterAppend(p, s[1..], t);
    } else {
      assert s + t == t;
    }
  }

  /** Column projection `SELECT f(row)`: one output row per input row. */
  function Map<A, B>(f: A -> B, s: seq<A>): (r: seq<B>)
    ensures |r| == |s|
    ensures forall i :: 0 <= i < |s| ==> r[i] == f(s[i])
  {
    seq(|s|, i requires 0 <= i < |s| => f(s[i]))
  }

  lemma MapMembers<A, B>(f: A -> B, s: seq<A>, y: B)
    ensures y in Map(f, s) <==> exists x :: x in s && f(x) == y
  {
    if y in Map(f, s) {
      var i :| 0 <= i < |s| && Map(f, s)[i] == y;
      assert s[i] in s;
    }
    if x :| x in s && f(x) == y {
      var i :| 0 <= i < |s| && s[i] == x;
      assert Map(f, s)[i] == y;
    }
  }

  /**
   * `SELECT DISTINCT`: every value of s exactly once. The order chosen is that of first
   * occurrence; SQL does not fix one.
   */
  function Distinct<T(==,!new)>(s: seq<T>): (r: seq<T>)
    ensures NoDuplicates(r)
    ensures forall x :: x in r <==> x in s
    ensures |r| <= |s|
  {
    if |s| == 0 then []
    else
      var rest := Distinct(s[..|s| - 1]);
      assert forall x :: x in s <==> x in s[..|s| - 1] || x == s[|s| - 1] by {
        assert s == s[..|s| - 1] + [s[|s| - 1]];
      }
      if s[|s| - 1] in rest then rest else rest + [s[|s| - 1]]
  }

  /** A sequence without duplicates has as many elements as it has distinct values. */
  lemma {:induction false} NoDuplicatesCardinality<T(!new)>(s: seq<T>)
    requires NoDuplicates(s)
    ensures |set x | x in s| == |s|
  {
    if |s| > 0 {
      var init := s[..|s| - 1];
      assert NoDuplicates(init);
      NoDuplicatesCardinality(init);
      assert s == init + [s[|s| - 1]];
      assert (set x | x in s) == (set x | x in init) + {s[|s| - 1]};
      assert s[|s| - 1] !in init;
    }
  }

  lemma {:induction false} NoDuplicatesMultiplicity<T>(s: seq<T>, x: T)
    requires NoDuplicates(s)
    ensures multiset(s)[x] <= 1
  {
    if |s| > 0 {
      var init := s[..|s| - 1];
      assert s == init + [s[|s| - 1]];
      assert NoDuplicates(init);
      NoDuplicatesMultiplicity(init, x);
      if x == s[|s| - 1] {
        assert x !in init;
      }
    }
  }

  lemma {:induction false} ConstantMultiplicity<T>(s: seq<T>, x: T)
    requires forall i | 0 <= i < |s| :: s[i] == x
    ensures multiset(s)[x] == |s|
  {
    if |s| > 0 {
      assert s == [s[0]] + s[1..];
      ConstantMultiplicity(s[1..], x);
    }
  }

  /** `SELECT DISTINCT` yields one row per distinct value. */
  lemma DistinctCardinality<T(!new)>(s: seq<T>)
    ensures |Distinct(s)| == |set x | x in s|
  {
    var r := Distinct(s);
    NoDuplicatesCardinality(r);
    assert (set x | x in r) == (set x | x in s);
  }

  /** `SELECT DISTINCT` changes nothing on a table that has no duplicate rows. */
  lemma {:induction false} DistinctOfDistinct<T(!new)>(s: seq<T>)
    requires NoDuplicates(s)
    ensures Distinct(s) == s
  {
    if |s| > 0 {
      var init := s[..|s| - 1];
      assert NoDuplicates(init);
      DistinctOfDistinct(init);
      assert s[|s| - 1] !in init;
      assert s == init + [s[|s| - 1]];
    }
  }

  /**
   * A join driven by an outer table: each outer row x contributes the rows f(x), in outer-table
   * order.
   */
  function FlatMap<A, B>(f: A -> seq<B>, s: seq<A>): seq<B> {
    if |s| == 0 then [] else f(s[0]) + FlatMap(f, s[1..])
  }

  lemma {:induction false} FlatMapAppend<A, B>(f: A -> seq<B>, s: seq<A>, t: seq<A>)
    ensures FlatMap(f, s + t) == FlatMap(f, s) + FlatMap(f, t)
  {
    if |s| > 0 {
      assert (s + t)[0] == s[0];
      assert (s + t)[1..] == s[1..] + t;
      FlatMapAppend(f, s[1..], t);
    } else {
      assert s + t == t;
    }
  }

  /** An output row comes from some outer row, and every row an outer row produces is output. */
  lemma {:induction false} FlatMapMembers<A, B>(f: A -> seq<B>, s: seq<A>, y: B)
    ensures y in FlatMap(f, s) <==> exists x :: x in s && y in f(x)
  {
    if |s| > 0 {
      FlatMapMembers(f, s[1..], y);
      assert s[0] in s;
      assert forall x :: x in s[1..] ==> x in s;
      assert forall x :: x in s ==> x == s[0] || x in s[1..] by {
        assert s == [s[0]] + s[1..];
      }
    }
  }

  /** Filtering the outer table first changes nothing when the dropped rows produce nothing. */
  lemma {:induction false} FlatMapIgnoresFiltered<A(!new), B>(f: A -> seq<B>, p: A -> bool, s: seq<A>)
    requires forall x :: !p(x) ==> f(x) == []
    ensures FlatMap(f, Filter(p, s)) == FlatMap(f, s)
  {
    if |s| > 0 {
      FlatMapIgnoresFiltered(f, p, s[1..]);
      var head := if p(s[0]) then [s[0]] else [];
      FlatMapAppend(f, head, Filter(p, s[1..]));
      if p(s[0]) {
        assert FlatMap(f, head) == f(s[0]) + FlatMap(f, []);
      }
    }
  }

  /** Lower and exact bounds on the output size when only the rows satisfying p produce rows. */
  lemma {:induction false} FlatMapCount<A(!new), B>(f: A -> seq<B>, p: A -> bool, s: seq<A>)
    requires forall x :: !p(x) ==> f(x) == []
    ensures (forall x :: p(x) ==> |f(x)| >= 1) ==> |FlatMap(f, s)| >= |Filter(p, s)|
    ensures (forall x :: p(x) ==> |f(x)| == 1) ==> |FlatMap(f, s)| == |Filter(p, s)|
  {
    if |s| > 0 {
      FlatMapCount(f, p, s[1..]);
    }
  }
}
