/** Generic sequence vocabulary: order-preserving filtering, duplicate-freedom
    and first-occurrence de-duplication. */
module Seqs {

  /** No element occurs twice. */
  predicate Distinct<T(==)>(xs: seq<T>)
  {
    forall i, j :: 0 <= i < j < |xs| ==> xs[i] != xs[j]
  }

  /** The position of the first `x` in `xs`. */
  function IndexOf<T(==)>(xs: seq<T>, x: T): (k: nat)
    requires x in xs
    ensures k < |xs| && xs[k] == x
    ensures forall j :: 0 <= j < k ==> xs[j] != x
  {
    if xs[0] == x then 0 else 1 + IndexOf(xs[1..], x)
  }

  /** The elements of `xs` that satisfy `keep`, in their original order. */
  function Filter<T(!new)>(xs: seq<T>, keep: T -> bool): (r: seq<T>)
    ensures |r| <= |xs|
    ensures forall x :: x in r <==> x in xs && keep(x)
  {
    if xs == [] then []
    else
      var rest := Filter(xs[1..], keep);
      assert xs == [xs[0]] + xs[1..];
      if keep(xs[0]) then [xs[0]] + rest else rest
  }

  lemma {:induction false} FilterAppend<T(!new)>(a: seq<T>, b: seq<T>, keep: T -> bool)
    ensures Filter(a + b, keep) == Filter(a, keep) + Filter(b, keep)
  {
    if a == [] {
      assert a + b == b;
    } else {
      var ab := a + b;
      assert ab[0] == a[0];
      assert ab[1..] == a[1..] + b;
      FilterAppend(a[1..], b, keep);
    }
  }

  lemma {:induction false} FilterNone<T(!new)>(xs: seq<T>, keep: T -> bool)
    requires forall x :: x in xs ==> !keep(x)
    ensures Filter(xs, keep) == []
  {
    if xs != [] {
      FilterNone(xs[1..], keep);
    }
  }

  /** Filtering shortens the sequence as soon as one element fails. */
  lemma {:induction false} FilterShrinks<T(!new)>(xs: seq<T>, keep: T -> bool, x: T)
    requires x in xs && !keep(x)
    ensures |Filter(xs, keep)| < |xs|
  {
    if xs[0] != x {
      FilterShrinks(xs[1..], keep, x);
    }
  }

  /** Filtering keeps everything exactly when every element passes. */
  lemma {:induction false} FilterIdentity<T(!new)>(xs: seq<T>, keep: T -> bool)
    ensures Filter(xs, keep) == xs <==> forall x :: x in xs ==> keep(x)
  {
    if xs != [] {
      FilterIdentity(xs[1..], keep);
      if !keep(xs[0]) {
        FilterShrinks(xs, keep, xs[0]);
      }
    }
  }

  /** Filters that agree on the elements of `xs` give the same result. */
  lemma {:induction false} FilterCongruent<T(!new)>(xs: seq<T>, f: T -> bool, g: T -> bool)
    requires forall x :: x in xs ==> f(x) == g(x)
    ensures Filter(xs, f) == Filter(xs, g)
  {
    if xs != [] {
      FilterCongruent(xs[1..], f, g);
    }
  }

  /** Filtering twice is filtering once by both conditions. */
  lemma {:induction false} FilterFuse<T(!new)>(xs: seq<T>, f: T -> bool, g: T -> bool, h: T -> bool)
    requires forall x :: x in xs ==> (h(x) <==> f(x) && g(x))
    ensures Filter(Filter(xs, f), g) == Filter(xs, h)
  {
    if xs != [] {
      FilterFuse(xs[1..], f, g, h);
    }
  }

  /** Filtering keeps every passing element with its multiplicity and drops every other one. */
  lemma {:induction false} FilterMultiset<T(!new)>(xs: seq<T>, keep: T -> bool, x: T)
    ensures multiset(Filter(xs, keep))[x] == if keep(x) then multiset(xs)[x] else 0
  {
    if xs != [] {
      FilterMultiset(xs[1..], keep, x);
      assert xs == [xs[0]] + xs[1..];
      assert multiset(xs) == multiset([xs[0]]) + multiset(xs[1..]);
    }
  }

  lemma {:induction false} FilterDistinct<T(!new)>(xs: seq<T>, keep: T -> bool)
    requires Distinct(xs)
    ensures Distinct(Filter(xs, keep))
  {
    if xs != [] {
      FilterDistinct(xs[1..], keep);
      var rest := Filter(xs[1..], keep);
      assert xs[0] !in xs[1..];
      DistinctAppend([xs[0]], rest);
    }
  }

  /** The first occurrence of every element of `xs`, in order of first appearance. */
  function Dedup<T(==,!new)>(xs: seq<T>): (r: seq<T>)
    ensures Distinct(r)
    ensures forall x :: x in r <==> x in xs
    ensures |r| <= |xs|
  {
    if xs == [] then []
    else
      var d := Dedup(xs[..|xs| - 1]);
      var last := xs[|xs| - 1];
      assert xs == xs[..|xs| - 1] + [last];
      if last in d then d else d + [last]
  }

  lemma DedupSnoc<T(!new)>(xs: seq<T>, x: T)
    ensures x in xs ==> Dedup(xs + [x]) == Dedup(xs)
    ensures x !in xs ==> Dedup(xs + [x]) == Dedup(xs) + [x]
  {
    assert (xs + [x])[..|xs|] == xs;
  }

  /** Repeating elements that were already seen adds nothing. */
  lemma DedupOfRepeatedPair<T(!new)>(x: T, y: T, f: T)
    requires x != y && x != f && y != f
    ensures Dedup([x, y, f, x, y]) == [x, y, f]
  {
    var s3 := [x, y, f];
    DedupOfDistinct(s3);
    assert s3 + [x] == [x, y, f, x];
    DedupSnoc(s3, x);
    assert [x, y, f, x] + [y] == [x, y, f, x, y];
    DedupSnoc([x, y, f, x], y);
  }

  lemma {:induction false} DedupOfDistinct<T(!new)>(xs: seq<T>)
    requires Distinct(xs)
    ensures Dedup(xs) == xs
  {
    if xs != [] {
      var init := xs[..|xs| - 1];
      assert Distinct(init);
      DedupOfDistinct(init);
      assert xs[|xs| - 1] !in init;
      assert xs == init + [xs[|xs| - 1]];
    }
  }

  /** Without repeats, nothing occurs more than once. */
  lemma {:induction false} DistinctCount<T>(xs: seq<T>, x: T)
    requires Distinct(xs)
    ensures multiset(xs)[x] <= 1
  {
    if xs != [] {
      var tail := xs[1..];
      assert xs == [xs[0]] + tail;
      assert Distinct(tail) by {
        forall i, j | 0 <= i < j < |tail|
          ensures tail[i] != tail[j]
        {
          assert tail[i] == xs[i + 1] && tail[j] == xs[j + 1];
        }
      }
      DistinctCount(tail, x);
      if xs[0] == x {
        assert x !in tail;
      }
    }
  }

  /** An element at two positions occurs at least twice. */
  lemma CountTwo<T>(ys: seq<T>, i: nat, j: nat)
    requires i < j < |ys|
    ensures ys[i] == ys[j] ==> multiset(ys)[ys[i]] >= 2
  {
    assert ys == ys[..j] + ys[j..];
    assert ys[i] in ys[..j];
    assert ys[j] in ys[j..];
  }

  /** Taking away elements keeps a sequence free of repeats. */
  lemma SubMultisetDistinct<T>(xs: seq<T>, ys: seq<T>)
    requires Distinct(xs) && multiset(ys) <= multiset(xs)
    ensures Distinct(ys)
  {
    forall i, j | 0 <= i < j < |ys|
      ensures ys[i] != ys[j]
    {
      DistinctCount(xs, ys[i]);
      CountTwo(ys, i, j);
    }
  }

  lemma DistinctAppend<T>(a: seq<T>, b: seq<T>)
    ensures Distinct(a + b) <==> Distinct(a) && Distinct(b) && forall x :: x in a ==> x !in b
  {
    var ab := a + b;
    assert forall i :: 0 <= i < |a| ==> ab[i] == a[i];
    assert forall j :: 0 <= j < |b| ==> ab[|a| + j] == b[j];
    if Distinct(ab) {
      forall i, j | 0 <= i < j < |b|
        ensures b[i] != b[j]
      {
        assert ab[|a| + i] == b[i] && ab[|a| + j] == b[j];
      }
      forall x | x in a
        ensures x !in b
      {
        var i :| 0 <= i < |a| && a[i] == x;
      }
    }
    if Distinct(a) && Distinct(b) && forall x :: x in a ==> x !in b {
      forall i, j | 0 <= i < j < |ab|
        ensures ab[i] != ab[j]
      {
        if j < |a| {
        } else if i >= |a| {
          assert ab[i] == b[i - |a|] && ab[j] == b[j - |a|];
        } else {
          assert ab[i] == a[i] && ab[j] == b[j - |a|];
          assert a[i] in a;
        }
      }
    }
  }
}
