/**
 * The option lists of the province and diagnosis selectors: the distinct
 * values of a column of the reference table, in ascending order, as
 * `sorted(column.unique())` computes them.
 *
 * Strings are compared the way Python compares `str` values: code point by
 * code point, a proper prefix before any longer string.
 */
module Catalogue {

  /** Python's `a < b` on strings. */
  predicate Below(a: string, b: string)
    decreases |a|
  {
    if a == [] then b != []
    else b != [] && (a[0] < b[0] || (a[0] == b[0] && Below(a[1..], b[1..])))
  }

  lemma {:induction false} BelowIrreflexive(a: string)
    ensures !Below(a, a)
    decreases |a|
  {
    if a != [] {
      BelowIrreflexive(a[1..]);
    }
  }

  lemma {:induction false} BelowAsymmetric(a: string, b: string)
    ensures Below(a, b) ==> !Below(b, a)
    decreases |a|
  {
    if a != [] && b != [] && a[0] == b[0] {
      BelowAsymmetric(a[1..], b[1..]);
    }
  }

  lemma {:induction false} BelowTransitive(a: string, b: string, c: string)
    requires Below(a, b) && Below(b, c)
    ensures Below(a, c)
    decreases |a|
  {
    if a != [] && a[0] == b[0] && b[0] == c[0] {
      BelowTransitive(a[1..], b[1..], c[1..]);
    }
  }

  /** Any two different strings are ordered one way or the other. */
  lemma {:induction false} BelowTotal(a: string, b: string)
    ensures a == b || Below(a, b) || Below(b, a)
    decreases |a|
  {
    if a != [] && b != [] && a[0] == b[0] {
      BelowTotal(a[1..], b[1..]);
      if a[1..] == b[1..] {
        assert a == [a[0]] + a[1..] && b == [b[0]] + b[1..];
      }
    }
  }

  predicate Distinct(s: seq<string>) {
    forall i, j :: 0 <= i < j < |s| ==> s[i] != s[j]
  }

  /** Sorted, equal neighbours allowed. */
  predicate NonDescending(s: seq<string>) {
    forall i, j :: 0 <= i < j < |s| ==> !Below(s[j], s[i])
  }

  /** Strictly ascending: sorted and without duplicates. */
  predicate Ascending(s: seq<string>) {
    forall i, j :: 0 <= i < j < |s| ==> Below(s[i], s[j])
  }

  /**
   * `Series.unique()`: every value of the column once. The body lists them
   * in order of first occurrence, as pandas does; the contract leaves that
   * order open, since `sorted` discards it.
   */
  function Unique(column: seq<string>): (r: seq<string>)
    ensures Distinct(r)
    ensures forall x :: x in r <==> x in column
    ensures |r| <= |column|
  {
    if column == [] then []
    else
      var u := Unique(column[..|column| - 1]);
      var last := column[|column| - 1];
      assert column == column[..|column| - 1] + [last];
      if last in u then u else u + [last]
  }

  /** `x` is no greater than the first element of `s`, hence than all of them. */
  lemma AtMostAll(x: string, s: seq<string>)
    requires NonDescending(s) && s != [] && !Below(s[0], x)
    ensures forall y :: y in s ==> !Below(y, x)
  {
    forall y | y in s ensures !Below(y, x) {
      var k :| 0 <= k < |s| && s[k] == y;
      if k > 0 {
        BelowTotal(x, s[0]);
        BelowTotal(s[0], y);
        if Below(y, x) && x != s[0] && s[0] != y { BelowTransitive(x, s[0], y); }
        BelowAsymmetric(x, y);
      }
    }
  }

  /** The first element of a sorted list is no greater than any later one. */
  lemma HeadAtMostTail(s: seq<string>, t: seq<string>, x: string)
    requires NonDescending(s) && s != [] && Below(s[0], x)
    requires forall y :: y in t ==> y == x || y in s[1..]
    ensures forall y :: y in t ==> !Below(y, s[0])
  {
    BelowAsymmetric(s[0], x);
    forall y | y in t ensures !Below(y, s[0]) {
      if y != x {
        var k :| 0 <= k < |s[1..]| && s[1..][k] == y;
        assert s[k + 1] == y;
      }
    }
  }

  /**
   * Putting in front of a sorted list a value no greater than any of its
   * elements. Kept apart from Insert so that each proof stays small.
   */
  lemma ConsNonDescending(h: string, t: seq<string>)
    requires NonDescending(t)
    requires forall y :: y in t ==> !Below(y, h)
    ensures NonDescending([h] + t)
  {
  }

  /** A new value in front of a duplicate-free list keeps it duplicate-free. */
  lemma ConsDistinct(h: string, t: seq<string>)
    ensures Distinct(t) && h !in t ==> Distinct([h] + t)
  {
  }

  /** One step of `sorted`: put `x` into the sorted list `s`. */
  function Insert(x: string, s: seq<string>): (r: seq<string>)
    requires NonDescending(s)
    ensures NonDescending(r)
    ensures multiset(r) == multiset(s) + multiset{x}
    ensures forall y :: y in r <==> y == x || y in s
    ensures Distinct(s) && x !in s ==> Distinct(r)
  {
    if s == [] then [x]
    else if !Below(s[0], x) then
      AtMostAll(x, s);
      ConsNonDescending(x, s);
      ConsDistinct(x, s);
      [x] + s
    else
      var rest := Insert(x, s[1..]);
      assert s == [s[0]] + s[1..];
      HeadAtMostTail(s, rest, x);
      ConsNonDescending(s[0], rest);
      assert Distinct(s) ==> s[0] !in s[1..];
      ConsDistinct(s[0], rest);
      [s[0]] + rest
  }

  /** Python's `sorted` on a list of strings (an insertion sort). */
  function Sort(xs: seq<string>): (r: seq<string>)
    ensures NonDescending(r)
    ensures multiset(r) == multiset(xs)
    ensures forall y :: y in r <==> y in xs
    ensures Distinct(xs) ==> Distinct(r)
  {
    if xs == [] then []
    else
      var tail := Sort(xs[1..]);
      assert xs == [xs[0]] + xs[1..];
      assert Distinct(xs) ==> xs[0] !in xs[1..];
      Insert(xs[0], tail)
  }

  /** A sorted list without duplicates is strictly ascending. */
  lemma {:induction false} DistinctSortedAscending(s: seq<string>)
    requires NonDescending(s) && Distinct(s)
    ensures Ascending(s)
  {
    forall i, j | 0 <= i < j < |s| ensures Below(s[i], s[j]) {
      BelowTotal(s[i], s[j]);
    }
  }

  /**
   * `sorted(column.unique())`: the selector's option list. It is strictly
   * ascending and holds exactly the values that occur in the column.
   */
  function Options(column: seq<string>): (r: seq<string>)
    ensures Ascending(r)
    ensures forall x :: x in r <==> x in column
  {
    var u := Unique(column);
    var r := Sort(u);
    DistinctSortedAscending(r);
    r
  }

  /** The first value of a non-empty list is one of its values. */
  lemma FirstIsMember(s: seq<string>)
    requires s != []
    ensures s[0] in s
  {
  }

  /**
   * A strictly ascending list is determined by its elements: two of them
   * with the same elements are equal.
   */
  lemma {:induction false} AscendingDeterminedByElements(a: seq<string>, b: seq<string>)
    requires Ascending(a) && Ascending(b)
    requires forall x :: x in a <==> x in b
    ensures a == b
    decreases |a|
  {
    if a == [] {
      if b != [] { FirstIsMember(b); }
    } else {
      var y := a[0];
      assert y in a;
      assert b != [];
      assert a[0] == b[0] by {
        if a[0] != b[0] {
          var k :| 0 <= k < |b| && b[k] == a[0];
          assert b[0] in b;
          var m :| 0 <= m < |a| && a[m] == b[0];
          BelowAsymmetric(a[0], b[0]);
        }
      }
      forall x ensures x in a[1..] <==> x in b[1..] {
        if x in a[1..] {
          var k :| 0 <= k < |a[1..]| && a[1..][k] == x;
          assert Below(a[0], a[k + 1]);
          BelowIrreflexive(a[0]);
          assert x in b;
          assert b == [b[0]] + b[1..];
        }
        if x in b[1..] {
          var k :| 0 <= k < |b[1..]| && b[1..][k] == x;
          assert Below(b[0], b[k + 1]);
          BelowIrreflexive(b[0]);
          assert x in a;
          assert a == [a[0]] + a[1..];
        }
      }
      AscendingDeterminedByElements(a[1..], b[1..]);
      assert a == [a[0]] + a[1..] && b == [b[0]] + b[1..];
    }
  }

  /**
   * The option list depends only on which values occur in the column, not
   * on their order or on how often each occurs.
   */
  lemma OptionsDependOnlyOnValues(c1: seq<string>, c2: seq<string>)
    requires forall x :: x in c1 <==> x in c2
    ensures Options(c1) == Options(c2)
  {
    AscendingDeterminedByElements(Options(c1), Options(c2));
  }
}
