/**
 * Distinct values in order of first appearance: what pandas `Series.unique()`
 * returns, used for the lists of known uses and subjects.
 */
module Unique {

  /** No value occurs twice in `xs`. */
  predicate NoDuplicates<T(==)>(xs: seq<T>) {
    forall i, j :: 0 <= i < j < |xs| ==> xs[i] != xs[j]
  }

  /** Position of the first occurrence of `x` in `xs`. */
  function FirstIndex<T(==)>(xs: seq<T>, x: T): (k: nat)
    requires x in xs
    ensures k < |xs| && xs[k] == x
    ensures forall j :: 0 <= j < k ==> xs[j] != x
  {
    if xs[0] == x then 0 else 1 + FirstIndex(xs[1..], x)
  }

  /** Every element of `r` occurs in `xs`, and `r` lists them by strictly increasing first position in `xs`. */
  ghost predicate InFirstSeenOrder<T>(xs: seq<T>, r: seq<T>) {
    && (forall i :: 0 <= i < |r| ==> r[i] in xs)
    && (forall i, j :: 0 <= i < j < |r| ==> FirstIndex(xs, r[i]) < FirstIndex(xs, r[j]))
  }

  /** `r` is the first-seen listing of the values of `xs`: each value once, ordered by first appearance. */
  ghost predicate IsFirstSeenListing<T(!new)>(xs: seq<T>, r: seq<T>) {
    && NoDuplicates(r)
    && (forall x :: x in r <==> x in xs)
    && InFirstSeenOrder(xs, r)
  }

  /** The distinct values of `xs`, each kept at its first appearance. */
  function Distinct<T(==,!new)>(xs: seq<T>): (r: seq<T>)
    ensures NoDuplicates(r)
    ensures forall x :: x in r <==> x in xs
    ensures |r| <= |xs|
  {
    if |xs| == 0 then []
    else
      var init := xs[..|xs| - 1];
      var last := xs[|xs| - 1];
      assert xs == init + [last];
      var seen := Distinct(init);
      if last in seen then seen else seen + [last]
  }

  /** Any position holding `x` with no earlier `x` is the first index of `x`. */
  lemma FirstIndexIsUnique<T>(xs: seq<T>, x: T, k: nat)
    requires k < |xs| && xs[k] == x
    requires forall j :: 0 <= j < k ==> xs[j] != x
    ensures FirstIndex(xs, x) == k
  {
  }

  /** A value seen in a prefix has the same first index in the prefix as in the whole sequence. */
  lemma FirstIndexInPrefix<T>(xs: seq<T>, m: nat, x: T)
    requires m <= |xs| && x in xs[..m]
    ensures FirstIndex(xs, x) == FirstIndex(xs[..m], x)
  {
    var k := FirstIndex(xs[..m], x);
    FirstIndexIsUnique(xs, x, k);
  }

  /** A first-seen ordering of values of a prefix stays one for the whole sequence. */
  lemma PrefixOrderExtends<T>(xs: seq<T>, m: nat, r: seq<T>)
    requires m <= |xs| && InFirstSeenOrder(xs[..m], r)
    ensures InFirstSeenOrder(xs, r)
    ensures forall i :: 0 <= i < |r| ==> FirstIndex(xs, r[i]) < m
  {
    forall i | 0 <= i < |r|
      ensures r[i] in xs && FirstIndex(xs, r[i]) == FirstIndex(xs[..m], r[i])
    {
      FirstIndexInPrefix(xs, m, r[i]);
    }
    forall i, j | 0 <= i < j < |r|
      ensures FirstIndex(xs, r[i]) < FirstIndex(xs, r[j])
    {
      assert FirstIndex(xs[..m], r[i]) < FirstIndex(xs[..m], r[j]);
    }
  }

  /** Appending the value first seen at the last position keeps the first-seen ordering. */
  lemma AppendNewLast<T>(xs: seq<T>, r: seq<T>)
    requires |xs| > 0 && InFirstSeenOrder(xs[..|xs| - 1], r) && xs[|xs| - 1] !in xs[..|xs| - 1]
    ensures InFirstSeenOrder(xs, r + [xs[|xs| - 1]])
  {
  }

  /** `Distinct` lists the values of its input in order of first appearance. */
  lemma {:induction false} DistinctIsFirstSeenListing<T(!new)>(xs: seq<T>)
    ensures IsFirstSeenListing(xs, Distinct(xs))
  {
    if |xs| > 0 {
      var n := |xs| - 1;
      var init := xs[..n];
      DistinctIsFirstSeenListing(init);
      if xs[n] in Distinct(init) {
        PrefixOrderExtends(xs, n, Distinct(init));
      } else {
        AppendNewLast(xs, Distinct(init));
      }
    }
  }

  /** Sequences with the same members are empty together. */
  lemma SameMembersSameEmptiness<T(!new)>(a: seq<T>, b: seq<T>)
    requires forall x :: x in a <==> x in b
    ensures |a| == 0 <==> |b| == 0
  {
    if |a| > 0 {
      assert a[0] in b;
    }
    if |b| > 0 {
      assert b[0] in a;
    }
  }

  /** Two first-seen orderings of the same values start with the same value. */
  lemma HeadsAgree<T(!new)>(xs: seq<T>, a: seq<T>, b: seq<T>)
    requires InFirstSeenOrder(xs, a) && InFirstSeenOrder(xs, b)
    requires forall x :: x in a <==> x in b
    requires |a| > 0
    ensures |b| > 0 && a[0] == b[0]
  {
    assert a[0] in b;
    var k :| 0 <= k < |b| && b[k] == a[0];
    assert b[0] in a;
    var m :| 0 <= m < |a| && a[m] == b[0];
    assert k == 0;
  }

  /** In a first-seen ordering the head does not occur again in the tail. */
  lemma HeadNotInTail<T>(xs: seq<T>, a: seq<T>)
    requires InFirstSeenOrder(xs, a) && |a| > 0
    ensures a[0] !in a[1..]
  {
  }

  /** At most one sequence is a first-seen ordering of a given set of values. */
  lemma {:induction false} FirstSeenOrderIsUnique<T(!new)>(xs: seq<T>, a: seq<T>, b: seq<T>)
    requires InFirstSeenOrder(xs, a) && InFirstSeenOrder(xs, b)
    requires forall x :: x in a <==> x in b
    ensures a == b
    decreases |a|
  {
    if |a| > 0 {
      HeadsAgree(xs, a, b);
      HeadNotInTail(xs, a);
      HeadNotInTail(xs, b);
      var a', b' := a[1..], b[1..];
      assert a == [a[0]] + a' && b == [b[0]] + b';
      assert InFirstSeenOrder(xs, a') by {
        forall i, j | 0 <= i < j < |a'|
          ensures FirstIndex(xs, a'[i]) < FirstIndex(xs, a'[j])
        {
          assert a'[i] == a[i + 1] && a'[j] == a[j + 1];
        }
      }
      assert InFirstSeenOrder(xs, b') by {
        forall i, j | 0 <= i < j < |b'|
          ensures FirstIndex(xs, b'[i]) < FirstIndex(xs, b'[j])
        {
          assert b'[i] == b[i + 1] && b'[j] == b[j + 1];
        }
      }
      forall x
        ensures x in a' <==> x in b'
      {
        assert x in a' <==> x in a && x != a[0];
        assert x in b' <==> x in b && x != b[0];
      }
      FirstSeenOrderIsUnique(xs, a', b');
    } else {
      SameMembersSameEmptiness(a, b);
    }
  }

  /** `Distinct` is the only first-seen listing of its input: any other listing with the same three properties equals it. */
  lemma FirstSeenListingIsDistinct<T(!new)>(xs: seq<T>, r: seq<T>)
    requires IsFirstSeenListing(xs, r)
    ensures r == Distinct(xs)
  {
    DistinctIsFirstSeenListing(xs);
    FirstSeenOrderIsUnique(xs, r, Distinct(xs));
  }
}
