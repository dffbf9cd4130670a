/**
  The order Python's `sorted` uses on `str` values: code point by code point,
  with a proper prefix ordered before any longer string. Dafny's `char` is a
  Unicode scalar value, so comparing two characters compares code points.
 */
module Lexicographic {

  /** `a <= b` in Python's string order. */
  predicate Leq(a: string, b: string)
  {
    |a| == 0 || (|b| > 0 && (a[0] < b[0] || (a[0] == b[0] && Leq(a[1..], b[1..]))))
  }

  lemma {:induction false} LeqReflexive(a: string)
    ensures Leq(a, a)
  {
    if |a| > 0 {
      LeqReflexive(a[1..]);
    }
  }

  lemma {:induction false} LeqAntisymmetric(a: string, b: string)
    requires Leq(a, b) && Leq(b, a)
    ensures a == b
  {
    if |a| > 0 && |b| > 0 {
      LeqAntisymmetric(a[1..], b[1..]);
      assert a == [a[0]] + a[1..];
      assert b == [b[0]] + b[1..];
    }
  }

  lemma {:induction false} LeqTransitive(a: string, b: string, c: string)
    requires Leq(a, b) && Leq(b, c)
    ensures Leq(a, c)
  {
    if |a| > 0 && a[0] == b[0] && b[0] == c[0] {
      LeqTransitive(a[1..], b[1..], c[1..]);
    }
  }

  lemma {:induction false} LeqTotal(a: string, b: string)
    ensures Leq(a, b) || Leq(b, a)
  {
    if |a| > 0 && |b| > 0 && a[0] == b[0] {
      LeqTotal(a[1..], b[1..]);
    }
  }

  /** Every element is at most every later element. */
  predicate Sorted(xs: seq<string>)
  {
    forall i, j :: 0 <= i < j < |xs| ==> Leq(xs[i], xs[j])
  }

  /** The head of a sorted sequence is at most each of its elements. */
  lemma HeadIsLeast(xs: seq<string>, z: string)
    requires Sorted(xs)
    requires z in xs
    ensures Leq(xs[0], z)
  {
    var k :| 0 <= k < |xs| && xs[k] == z;
    if k == 0 {
      LeqReflexive(z);
    }
  }

  lemma PrependSorted(y: string, ys: seq<string>)
    requires Sorted(ys)
    requires forall z :: z in ys ==> Leq(y, z)
    ensures Sorted([y] + ys)
  {
    var r := [y] + ys;
    forall i, j | 0 <= i < j < |r|
      ensures Leq(r[i], r[j])
    {
      assert r[j] == ys[j - 1];
      if i > 0 {
        assert r[i] == ys[i - 1];
      } else {
        assert r[j] in ys;
      }
    }
  }

  /** Inserting `x` into a sorted sequence keeps it sorted and adds exactly one `x`. */
  function Insert(xs: seq<string>, x: string): (r: seq<string>)
    requires Sorted(xs)
    ensures Sorted(r)
    ensures multiset(r) == multiset(xs) + multiset{x}
  {
    if |xs| == 0 then [x]
    else if Leq(x, xs[0]) then
      assert forall z :: z in xs ==> Leq(x, z) by {
        forall z | z in xs
          ensures Leq(x, z)
        {
          HeadIsLeast(xs, z);
          LeqTransitive(x, xs[0], z);
        }
      }
      PrependSorted(x, xs);
      [x] + xs
    else
      var rest := Insert(xs[1..], x);
      assert xs == [xs[0]] + xs[1..];
      assert forall z :: z in rest ==> Leq(xs[0], z) by {
        forall z | z in rest
          ensures Leq(xs[0], z)
        {
          assert z in multiset(rest);
          if z == x {
            LeqTotal(x, xs[0]);
          } else {
            assert z in multiset(xs[1..]);
            assert z in xs;
            HeadIsLeast(xs, z);
          }
        }
      }
      PrependSorted(xs[0], rest);
      [xs[0]] + rest
  }

  /** Insertion sort: a sorted permutation of the input. */
  function Sort(xs: seq<string>): (r: seq<string>)
    ensures Sorted(r)
    ensures multiset(r) == multiset(xs)
  {
    if |xs| == 0 then []
    else
      assert xs == [xs[0]] + xs[1..];
      Insert(Sort(xs[1..]), xs[0])
  }

  /** There is only one sorted arrangement of a multiset of strings. */
  lemma {:induction false} SortedUnique(xs: seq<string>, ys: seq<string>)
    requires Sorted(xs) && Sorted(ys)
    requires multiset(xs) == multiset(ys)
    ensures xs == ys
  {
    assert |xs| == |multiset(xs)| == |multiset(ys)| == |ys|;
    if |xs| > 0 {
      assert xs[0] in multiset(ys) && ys[0] in multiset(xs);
      HeadIsLeast(ys, xs[0]);
      HeadIsLeast(xs, ys[0]);
      LeqAntisymmetric(xs[0], ys[0]);
      assert xs == [xs[0]] + xs[1..];
      assert ys == [ys[0]] + ys[1..];
      assert multiset(xs[1..]) == multiset(xs) - multiset{xs[0]};
      assert multiset(ys[1..]) == multiset(ys) - multiset{ys[0]};
      SortedUnique(xs[1..], ys[1..]);
    }
  }

  /** A sequence that is a permutation of a set holds each element once. */
  lemma PermutationOfSetIsDistinct(xs: seq<string>, s: set<string>)
    requires multiset(xs) == multiset(s)
    ensures forall i, j :: 0 <= i < j < |xs| ==> xs[i] != xs[j]
  {
    forall i, j | 0 <= i < j < |xs|
      ensures xs[i] != xs[j]
    {
      var x := xs[i];
      assert xs == xs[..j] + xs[j..];
      assert multiset(xs) == multiset(xs[..j]) + multiset(xs[j..]);
      assert x in xs[..j];
      assert multiset(xs[..j])[x] >= 1;
      assert multiset(s)[x] <= 1;
      assert multiset(xs[j..])[x] == 0;
      assert xs[j] in multiset(xs[j..]);
    }
  }
}
