/**
 Orders used to build the dashboard's option lists and the axes of its
 monthly breakdown: a strict total order given as a relation, strictly
 sorted sequences, and the "distinct values, sorted" operation that
 `sorted(column.unique())` performs.
 */
module Orders {

  /** `lt` is a strict total order: irreflexive, transitive and connected. */
  ghost predicate StrictTotalOrder<T(!new)>(lt: (T, T) -> bool) {
    && (forall x :: !lt(x, x))
    && (forall x, y, z :: lt(x, y) && lt(y, z) ==> lt(x, z))
    && (forall x, y :: x != y ==> lt(x, y) || lt(y, x))
  }

  /** Every element comes strictly before every later one. */
  ghost predicate Sorted<T>(s: seq<T>, lt: (T, T) -> bool) {
    forall i, j :: 0 <= i < j < |s| ==> lt(s[i], s[j])
  }

  /** No value occurs twice. */
  ghost predicate Distinct<T>(s: seq<T>) {
    forall i, j :: 0 <= i < j < |s| ==> s[i] != s[j]
  }

  lemma SortedIsDistinct<T(!new)>(s: seq<T>, lt: (T, T) -> bool)
    requires StrictTotalOrder(lt)
    requires Sorted(s, lt)
    ensures Distinct(s)
  {
    forall i, j | 0 <= i < j < |s|
      ensures s[i] != s[j]
    {
      assert lt(s[i], s[j]);
    }
  }

  /** Adds `x` to a strictly sorted sequence, keeping it strictly sorted. */
  function Insert<T(==,!new)>(s: seq<T>, x: T, lt: (T, T) -> bool): (r: seq<T>)
    requires StrictTotalOrder(lt)
    requires Sorted(s, lt)
    ensures Sorted(r, lt)
    ensures forall y :: y in r <==> y in s || y == x
  {
    if |s| == 0 then [x]
    else if x == s[0] then s
    else if lt(x, s[0]) then
      assert forall y :: y in s ==> y == s[0] || lt(s[0], y);
      [x] + s
    else
      var tail := Insert(s[1..], x, lt);
      assert lt(s[0], x);
      assert forall y :: y in s[1..] ==> lt(s[0], y);
      [s[0]] + tail
  }

  /**
   The distinct values of `xs`, strictly sorted by `lt`: the model of
   `sorted(column.unique())`.
   */
  function SortedDistinct<T(==,!new)>(xs: seq<T>, lt: (T, T) -> bool): (r: seq<T>)
    requires StrictTotalOrder(lt)
    ensures Sorted(r, lt)
    ensures forall x :: x in r <==> x in xs
  {
    if |xs| == 0 then []
    else
      var prefix := xs[..|xs| - 1];
      assert xs == prefix + [xs[|xs| - 1]];
      Insert(SortedDistinct(prefix, lt), xs[|xs| - 1], lt)
  }

  /**
   Two strictly sorted sequences with the same elements are equal: the
   sorted distinct list of a collection is determined by its set of values.
   */
  lemma {:induction false} SortedUnique<T(!new)>(a: seq<T>, b: seq<T>, lt: (T, T) -> bool)
    requires StrictTotalOrder(lt)
    requires Sorted(a, lt) && Sorted(b, lt)
    requires forall x :: x in a <==> x in b
    ensures a == b
    decreases |a|
  {
    if |a| == 0 || |b| == 0 {
      assert forall s: seq<T> :: |s| > 0 ==> s[0] in s;
    } else {
      assert a[0] in b && b[0] in a;
      assert forall x :: x in b ==> x == b[0] || lt(b[0], x);
      assert forall x :: x in a ==> x == a[0] || lt(a[0], x);
      assert a[0] == b[0];
      forall x
        ensures x in a[1..] <==> x in b[1..]
      {
        if x in a[1..] {
          var i :| 1 <= i < |a| && a[i] == x;
          assert lt(a[0], a[i]);
          assert x in b;
        }
        if x in b[1..] {
          var i :| 1 <= i < |b| && b[i] == x;
          assert lt(b[0], b[i]);
          assert x in a;
        }
      }
      SortedUnique(a[1..], b[1..], lt);
      assert a == [a[0]] + a[1..];
      assert b == [b[0]] + b[1..];
    }
  }

  /** Ascending order on integers (month numbers). */
  predicate IntLess(a: int, b: int) {
    a < b
  }

  /** Descending order on integers (`sorted(..., reverse=True)` of years). */
  predicate IntGreater(a: int, b: int) {
    a > b
  }

  lemma IntOrdersAreStrictTotal()
    ensures StrictTotalOrder(IntLess)
    ensures StrictTotalOrder(IntGreater)
  {
  }

  /**
   Python's ordering of `str` values: lexicographic by code point, a proper
   prefix coming first.
   */
  predicate StrLess(a: string, b: string)
    decreases |a|
  {
    if |a| == 0 then |b| > 0
    else if |b| == 0 then false
    else if a[0] != b[0] then a[0] < b[0]
    else StrLess(a[1..], b[1..])
  }

  lemma {:induction false} StrLessIrreflexive(a: string)
    ensures !StrLess(a, a)
    decreases |a|
  {
    if |a| > 0 {
      StrLessIrreflexive(a[1..]);
    }
  }

  lemma {:induction false} StrLessTransitive(a: string, b: string, c: string)
    requires StrLess(a, b) && StrLess(b, c)
    ensures StrLess(a, c)
    decreases |a|
  {
    if |a| > 0 && |b| > 0 && |c| > 0 && a[0] == b[0] && b[0] == c[0] {
      StrLessTransitive(a[1..], b[1..], c[1..]);
    }
  }

  lemma {:induction false} StrLessConnected(a: string, b: string)
    requires a != b
    ensures StrLess(a, b) || StrLess(b, a)
    decreases |a|
  {
    if |a| > 0 && |b| > 0 && a[0] == b[0] {
      assert a == [a[0]] + a[1..];
      assert b == [b[0]] + b[1..];
      StrLessConnected(a[1..], b[1..]);
    }
  }

  lemma StrLessIsStrictTotal()
    ensures StrictTotalOrder(StrLess)
  {
    forall x: string
      ensures !StrLess(x, x)
    {
      StrLessIrreflexive(x);
    }
    forall x: string, y: string, z: string | StrLess(x, y) && StrLess(y, z)
      ensures StrLess(x, z)
    {
      StrLessTransitive(x, y, z);
    }
    forall x: string, y: string | x != y
      ensures StrLess(x, y) || StrLess(y, x)
    {
      StrLessConnected(x, y);
    }
  }
}
