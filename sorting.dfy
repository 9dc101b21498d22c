/** Python's `sorted` on a list whose elements have a strict total order, as an insertion
    sort, and the fact that a collection has only one ascending arrangement. */
module Sorting {
  import opened Hdict

  /** `a` sorts no later than `b`. */
  predicate AtMost<T(==)>(a: T, b: T, less: (T, T) -> bool)
  {
    a == b || less(a, b)
  }

  /** The list is in ascending order. */
  predicate Ascending<T(==)>(s: seq<T>, less: (T, T) -> bool)
  {
    forall i, j :: 0 <= i < j < |s| ==> AtMost(s[i], s[j], less)
  }

  /** No element occurs twice. */
  ghost predicate NoRepeats<T(!new)>(s: seq<T>)
  {
    forall x :: multiset(s)[x] <= 1
  }

  /** Places `x` into an ascending list. */
  function Insert<T(==)>(x: T, s: seq<T>, less: (T, T) -> bool): seq<T>
  {
    if s == [] || AtMost(x, s[0], less) then [x] + s
    else [s[0]] + Insert(x, s[1..], less)
  }

  lemma AtMostTransitive<T(!new)>(a: T, b: T, c: T, less: (T, T) -> bool)
    requires StrictTotal(less)
    requires AtMost(a, b, less) && AtMost(b, c, less)
    ensures AtMost(a, c, less)
  {
  }

  lemma AtMostAntisymmetric<T(!new)>(a: T, b: T, less: (T, T) -> bool)
    requires StrictTotal(less)
    requires AtMost(a, b, less) && AtMost(b, a, less)
    ensures a == b
  {
  }

  /** Inserting keeps the list ascending and adds exactly `x`. */
  lemma {:induction false} InsertSpec<T(!new)>(x: T, s: seq<T>, less: (T, T) -> bool)
    requires StrictTotal(less) && Ascending(s, less)
    ensures Ascending(Insert(x, s, less), less)
    ensures multiset(Insert(x, s, less)) == multiset(s) + multiset{x}
  {
    if s == [] {
    } else if AtMost(x, s[0], less) {
      forall j | 0 <= j < |s| ensures AtMost(x, s[j], less) {
        if j > 0 { AtMostTransitive(x, s[0], s[j], less); }
      }
    } else {
      assert s == [s[0]] + s[1..];
      InsertSpec(x, s[1..], less);
      var tail := Insert(x, s[1..], less);
      forall j | 0 <= j < |tail| ensures AtMost(s[0], tail[j], less) {
        assert tail[j] in multiset(tail);
      }
    }
  }

  /** `sorted(s)`: an ascending list holding the same elements, each as often. */
  function Sort<T(==,!new)>(s: seq<T>, less: (T, T) -> bool): (r: seq<T>)
    requires StrictTotal(less)
    ensures Ascending(r, less)
    ensures multiset(r) == multiset(s)
  {
    if s == [] then []
    else
      var rest := Sort(s[1..], less);
      InsertSpec(s[0], rest, less);
      assert s == [s[0]] + s[1..];
      Insert(s[0], rest, less)
  }

  /** Ascending arrangements of one collection start with the same element. */
  lemma SameFirst<T(!new)>(a: seq<T>, b: seq<T>, less: (T, T) -> bool)
    requires StrictTotal(less)
    requires Ascending(a, less) && Ascending(b, less) && multiset(a) == multiset(b) && a != []
    ensures b != [] && a[0] == b[0]
  {
    assert a[0] in multiset(b);
    assert b[0] in multiset(a);
    var i :| 0 <= i < |a| && a[i] == b[0];
    var j :| 0 <= j < |b| && b[j] == a[0];
    if i > 0 && j > 0 { AtMostAntisymmetric(a[0], b[0], less); }
  }

  /** Removing the same first element leaves the same collection. */
  lemma SameRest<T>(a: seq<T>, b: seq<T>)
    requires multiset(a) == multiset(b) && a != [] && b != [] && a[0] == b[0]
    ensures multiset(a[1..]) == multiset(b[1..])
  {
    assert a == [a[0]] + a[1..] && b == [b[0]] + b[1..];
    assert multiset(a[1..]) == multiset(a) - multiset{a[0]};
    assert multiset(b[1..]) == multiset(b) - multiset{b[0]};
  }

  /** A collection has only one ascending arrangement. */
  lemma {:induction false} AscendingUnique<T(!new)>(a: seq<T>, b: seq<T>, less: (T, T) -> bool)
    requires StrictTotal(less)
    requires Ascending(a, less) && Ascending(b, less) && multiset(a) == multiset(b)
    ensures a == b
  {
    if a == [] {
      assert |multiset(b)| == 0;
    } else {
      SameFirst(a, b, less);
      SameRest(a, b);
      AscendingUnique(a[1..], b[1..], less);
      assert a == [a[0]] + a[1..] && b == [b[0]] + b[1..];
    }
  }

  /** Two ascending lists without repeats holding the same elements are the same list. */
  lemma SameElementsSameList<T(!new)>(a: seq<T>, b: seq<T>, less: (T, T) -> bool)
    requires StrictTotal(less)
    requires Ascending(a, less) && Ascending(b, less) && NoRepeats(a) && NoRepeats(b)
    requires forall x :: x in a <==> x in b
    ensures a == b
  {
    forall x ensures multiset(a)[x] == multiset(b)[x] {
      if x in a {
        assert x in multiset(a) && x in multiset(b);
      } else {
        assert x !in multiset(a) && x !in multiset(b);
      }
    }
    assert multiset(a) == multiset(b);
    AscendingUnique(a, b, less);
  }
}
