/** Python's sorted(set(xs)): the distinct elements of xs in ascending
    order, for any strict total order `less`. */
module Sorting {
  import Strings

  ghost predicate IsStrictTotalOrder<T(!new)>(less: (T, T) -> bool) {
    && (forall x :: !less(x, x))
    && (forall x, y, z :: less(x, y) && less(y, z) ==> less(x, z))
    && (forall x, y :: x == y || less(x, y) || less(y, x))
  }

  predicate Increasing<T>(s: seq<T>, less: (T, T) -> bool) {
    forall i, j :: 0 <= i < j < |s| ==> less(s[i], s[j])
  }

  /** Adds x to an increasing sequence, unless it is already there. */
  function Insert<T(==,!new)>(s: seq<T>, x: T, less: (T, T) -> bool): (r: seq<T>)
    requires IsStrictTotalOrder(less) && Increasing(s, less)
    ensures Increasing(r, less)
    ensures forall y :: y in r <==> y in s || y == x
  {
    if s == [] then [x]
    else if less(x, s[0]) then [x] + s
    else if x == s[0] then s
    else
      var rest := Insert(s[1..], x, less);
      assert forall k :: 0 <= k < |rest| ==> less(s[0], rest[k]) by {
        forall k | 0 <= k < |rest| ensures less(s[0], rest[k]) {
          if rest[k] != x {
            assert rest[k] in rest;
            var i :| 0 <= i < |s[1..]| && s[1..][i] == rest[k];
            assert s[i + 1] == rest[k];
          }
        }
      }
      [s[0]] + rest
  }

  /** The distinct elements of s, in increasing order. */
  function SortUnique<T(==,!new)>(s: seq<T>, less: (T, T) -> bool): (r: seq<T>)
    requires IsStrictTotalOrder(less)
    ensures Increasing(r, less)
    ensures forall y :: y in r <==> y in s
  {
    if s == [] then [] else Insert(SortUnique(s[..|s| - 1], less), s[|s| - 1], less)
  }

  /** An increasing sequence is determined by its elements: whichever list
      of the same elements is sorted, the outcome is the same. */
  lemma {:induction false} IncreasingUnique<T(!new)>(a: seq<T>, b: seq<T>, less: (T, T) -> bool)
    requires IsStrictTotalOrder(less)
    requires Increasing(a, less) && Increasing(b, less)
    requires forall y :: y in a <==> y in b
    ensures a == b
    decreases |a|
  {
    if a != [] {
      assert a[0] in b;
    }
    if b != [] {
      assert b[0] in a;
    }
    if a != [] && b != [] {
      IncreasingHeadIsLeast(a, b[0], less);
      IncreasingHeadIsLeast(b, a[0], less);
      assert a[0] == b[0];
      forall y
        ensures y in a[1..] <==> y in b[1..]
      {
        if y in a[1..] {
          var i :| 1 <= i < |a| && a[i] == y;
          assert less(a[0], y);
          assert y in b;
          var j :| 0 <= j < |b| && b[j] == y;
          assert j != 0;
          assert b[1..][j - 1] == y;
        }
        if y in b[1..] {
          var i :| 1 <= i < |b| && b[i] == y;
          assert less(b[0], y);
          assert y in a;
          var j :| 0 <= j < |a| && a[j] == y;
          assert j != 0;
          assert a[1..][j - 1] == y;
        }
      }
      IncreasingUnique(a[1..], b[1..], less);
      assert a == [a[0]] + a[1..] && b == [b[0]] + b[1..];
    }
  }

  lemma IncreasingHeadIsLeast<T(!new)>(s: seq<T>, y: T, less: (T, T) -> bool)
    requires Increasing(s, less) && y in s
    ensures y == s[0] || less(s[0], y)
  {
  }

  lemma IncreasingNoDup<T(!new)>(s: seq<T>, less: (T, T) -> bool)
    requires IsStrictTotalOrder(less) && Increasing(s, less)
    ensures forall i, j :: 0 <= i < j < |s| ==> s[i] != s[j]
  {
    forall i, j | 0 <= i < j < |s| ensures s[i] != s[j] {
      assert less(s[i], s[j]);
    }
  }

  function IntLess(a: int, b: int): bool { a < b }

  lemma IntLessIsStrictTotalOrder()
    ensures IsStrictTotalOrder(IntLess)
  {
  }

  lemma LexLessIsStrictTotalOrder()
    ensures IsStrictTotalOrder(Strings.LexLess)
  {
    forall x ensures !Strings.LexLess(x, x) {
      Strings.LexLessIrreflexive(x);
    }
    forall x, y, z | Strings.LexLess(x, y) && Strings.LexLess(y, z)
      ensures Strings.LexLess(x, z)
    {
      Strings.LexLessTransitive(x, y, z);
    }
    forall x, y ensures x == y || Strings.LexLess(x, y) || Strings.LexLess(y, x) {
      Strings.LexLessTotal(x, y);
    }
  }
}
