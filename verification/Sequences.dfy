/** The few facts about lists that several components share. */
module Sequences {

  ghost predicate NoDuplicates<T>(xs: seq<T>) {
    forall i, j :: 0 <= i < j < |xs| ==> xs[i] != xs[j]
  }

  /** The list without the first occurrence of `x`. */
  function RemoveFirst<T(==)>(xs: seq<T>, x: T): seq<T> {
    if xs == [] then []
    else if xs[0] == x then xs[1..]
    else [xs[0]] + RemoveFirst(xs[1..], x)
  }

  lemma {:induction false} RemoveFirstMembers<T>(xs: seq<T>, x: T, y: T)
    ensures y in RemoveFirst(xs, x) ==> y in xs
    ensures y in xs && y != x ==> y in RemoveFirst(xs, x)
    ensures NoDuplicates(xs) ==> x !in RemoveFirst(xs, x)
    ensures |RemoveFirst(xs, x)| <= |xs|
  {
    if xs != [] && xs[0] != x {
      RemoveFirstMembers(xs[1..], x, y);
    }
  }

  lemma {:induction false} RemoveFirstAbsent<T>(xs: seq<T>, x: T)
    ensures x !in xs ==> RemoveFirst(xs, x) == xs
  {
    if xs != [] && x !in xs {
      assert xs[0] in xs && forall y :: y in xs[1..] ==> y in xs;
      RemoveFirstAbsent(xs[1..], x);
    }
  }

  lemma {:induction false} RemoveFirstKeepsDistinct<T>(xs: seq<T>, x: T)
    requires NoDuplicates(xs)
    ensures NoDuplicates(RemoveFirst(xs, x))
  {
    if xs != [] && xs[0] != x {
      RemoveFirstKeepsDistinct(xs[1..], x);
      var rest := RemoveFirst(xs[1..], x);
      RemoveFirstMembers(xs[1..], x, xs[0]);
      assert xs[0] !in xs[1..];
      assert xs[0] !in rest;
    }
  }

  lemma {:induction false} RemoveFirstUndoesAppend<T>(xs: seq<T>, x: T)
    requires x !in xs
    ensures RemoveFirst(xs + [x], x) == xs
  {
    if xs != [] {
      assert (xs + [x])[1..] == xs[1..] + [x];
      RemoveFirstUndoesAppend(xs[1..], x);
    }
  }

  lemma {:induction false} CountOnce<T>(xs: seq<T>, x: T)
    requires NoDuplicates(xs)
    ensures multiset(xs)[x] == if x in xs then 1 else 0
  {
    if xs != [] {
      assert xs == [xs[0]] + xs[1..];
      CountOnce(xs[1..], x);
    }
  }

  lemma DistinctLater<T>(xs: seq<T>, i: nat)
    requires NoDuplicates(xs) && i < |xs|
    ensures forall k :: i < k < |xs| ==> xs[k] != xs[i]
  {
  }

  lemma Assoc<T>(a: seq<T>, b: seq<T>, c: seq<T>)
    ensures a + b + c == a + (b + c)
  {
  }
}
