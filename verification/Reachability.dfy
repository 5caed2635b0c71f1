/** Paths over a finite set of edges. The walks over connections, over scheduling graphs and over
    values that may contain themselves are all specified against these definitions. */
module Reachability {

  /** Consecutive elements of `p` are joined by edges. */
  ghost predicate IsPath<T(!new)>(es: set<(T, T)>, p: seq<T>) {
    && |p| >= 1
    && forall i :: 0 <= i < |p| - 1 ==> (p[i], p[i + 1]) in es
  }

  /** `b` is reached from `a` in zero or more edges. */
  ghost predicate Reach<T(!new)>(es: set<(T, T)>, a: T, b: T) {
    exists p: seq<T> :: IsPath(es, p) && p[0] == a && p[|p| - 1] == b
  }

  /** `b` is reached from `a` in one or more edges. */
  ghost predicate ReachPlus<T(!new)>(es: set<(T, T)>, a: T, b: T) {
    exists c :: (a, c) in es && Reach(es, c, b)
  }

  /** No edge leaves `s`. */
  ghost predicate Closed<T(!new)>(es: set<(T, T)>, s: set<T>) {
    forall a, b :: a in s && (a, b) in es ==> b in s
  }

  /** The edges that do not enter `avoid`. */
  function Avoiding<T(==)>(es: set<(T, T)>, avoid: set<T>): set<(T, T)> {
    set e | e in es && e.1 !in avoid
  }

  /** The edges whose two ends both lie outside `removed`. */
  function Outside<T(==)>(es: set<(T, T)>, removed: set<T>): set<(T, T)> {
    set e | e in es && e.0 !in removed && e.1 !in removed
  }

  ghost predicate Acyclic<T(!new)>(es: set<(T, T)>) {
    forall a :: !ReachPlus(es, a, a)
  }

  lemma ReachRefl<T(!new)>(es: set<(T, T)>, a: T)
    ensures Reach(es, a, a)
  {
    assert IsPath(es, [a]) && [a][0] == a;
  }

  lemma ReachTrans<T(!new)>(es: set<(T, T)>, a: T, b: T, c: T)
    requires Reach(es, a, b) && Reach(es, b, c)
    ensures Reach(es, a, c)
  {
    var p: seq<T> :| IsPath(es, p) && p[0] == a && p[|p| - 1] == b;
    var q: seq<T> :| IsPath(es, q) && q[0] == b && q[|q| - 1] == c;
    var r := p + q[1..];
    forall i | 0 <= i < |r| - 1 ensures (r[i], r[i + 1]) in es {
      if i < |p| - 1 {
      } else if i == |p| - 1 {
        assert r[i] == q[0] && r[i + 1] == q[1];
      } else {
        assert r[i] == q[i - |p| + 1] && r[i + 1] == q[i - |p| + 2];
      }
    }
    assert IsPath(es, r) && r[0] == a && r[|r| - 1] == c;
  }

  lemma ReachEdge<T(!new)>(es: set<(T, T)>, a: T, b: T)
    requires (a, b) in es
    ensures Reach(es, a, b) && ReachPlus(es, a, b)
  {
    assert IsPath(es, [a, b]) && [a, b][0] == a;
    ReachRefl(es, b);
  }

  lemma ReachStep<T(!new)>(es: set<(T, T)>, a: T, b: T, c: T)
    requires Reach(es, a, b) && (b, c) in es
    ensures Reach(es, a, c) && ReachPlus(es, a, c)
  {
    ReachEdge(es, b, c);
    ReachTrans(es, a, b, c);
    var p: seq<T> :| IsPath(es, p) && p[0] == a && p[|p| - 1] == b;
    if |p| > 1 {
      var q := p[1..];
      assert IsPath(es, q) && q[0] == p[1] && q[|q| - 1] == b;
      assert Reach(es, p[1], b);
      ReachTrans(es, p[1], b, c);
      assert (a, p[1]) in es;
    }
  }

  /** A path either is trivial or begins with an edge. */
  lemma ReachCases<T(!new)>(es: set<(T, T)>, a: T, b: T)
    requires Reach(es, a, b)
    ensures a == b || ReachPlus(es, a, b)
  {
    var p: seq<T> :| IsPath(es, p) && p[0] == a && p[|p| - 1] == b;
    if |p| > 1 {
      var q := p[1..];
      assert IsPath(es, q) && q[0] == p[1] && q[|q| - 1] == b;
      assert (a, p[1]) in es;
    }
  }

  lemma PathGivesPlus<T(!new)>(es: set<(T, T)>, p: seq<T>)
    requires IsPath(es, p) && |p| > 1
    ensures ReachPlus(es, p[0], p[|p| - 1])
  {
    var q := p[1..];
    assert IsPath(es, q) && q[0] == p[1] && q[|q| - 1] == p[|p| - 1];
    assert (p[0], p[1]) in es;
  }

  lemma PlusReach<T(!new)>(es: set<(T, T)>, a: T, b: T)
    requires ReachPlus(es, a, b)
    ensures Reach(es, a, b)
  {
    var c :| (a, c) in es && Reach(es, c, b);
    ReachEdge(es, a, c);
    ReachTrans(es, a, c, b);
  }

  lemma ReachThenPlus<T(!new)>(es: set<(T, T)>, a: T, b: T, c: T)
    requires Reach(es, a, b) && ReachPlus(es, b, c)
    ensures ReachPlus(es, a, c)
  {
    var d :| (b, d) in es && Reach(es, d, c);
    ReachStep(es, a, b, d);
    var e :| (a, e) in es && Reach(es, e, d);
    ReachTrans(es, e, d, c);
  }

  lemma PlusThenReach<T(!new)>(es: set<(T, T)>, a: T, b: T, c: T)
    requires ReachPlus(es, a, b) && Reach(es, b, c)
    ensures ReachPlus(es, a, c)
  {
    var e :| (a, e) in es && Reach(es, e, b);
    ReachTrans(es, e, b, c);
  }

  /** A path of one or more edges ends with an edge. */
  lemma PlusLast<T(!new)>(es: set<(T, T)>, a: T, b: T) returns (c: T)
    requires ReachPlus(es, a, b)
    ensures Reach(es, a, c) && (c, b) in es
  {
    var d :| (a, d) in es && Reach(es, d, b);
    var p: seq<T> :| IsPath(es, p) && p[0] == d && p[|p| - 1] == b;
    if |p| == 1 {
      c := a;
      ReachRefl(es, a);
    } else {
      c := p[|p| - 2];
      var q := p[..|p| - 1];
      assert IsPath(es, q) && q[0] == d && q[|q| - 1] == c;
      assert Reach(es, d, c);
      ReachEdge(es, a, d);
      ReachTrans(es, a, d, c);
    }
  }

  /** A set that no edge leaves holds everything reached from its members. */
  lemma ReachStaysIn<T(!new)>(es: set<(T, T)>, s: set<T>, a: T, b: T)
    requires Closed(es, s) && a in s && Reach(es, a, b)
    ensures b in s
  {
    var p: seq<T> :| IsPath(es, p) && p[0] == a && p[|p| - 1] == b;
    PathStaysIn(es, s, p);
  }

  lemma {:induction false} PathStaysIn<T(!new)>(es: set<(T, T)>, s: set<T>, p: seq<T>)
    requires Closed(es, s) && IsPath(es, p) && p[0] in s
    ensures p[|p| - 1] in s
  {
    if |p| > 1 {
      assert (p[0], p[1]) in es;
      PathStaysIn(es, s, p[1..]);
    }
  }

  lemma ReachMonotone<T(!new)>(es: set<(T, T)>, fs: set<(T, T)>, a: T, b: T)
    requires es <= fs && Reach(es, a, b)
    ensures Reach(fs, a, b)
  {
    var p: seq<T> :| IsPath(es, p) && p[0] == a && p[|p| - 1] == b;
    assert IsPath(fs, p);
  }

  lemma PlusMonotone<T(!new)>(es: set<(T, T)>, fs: set<(T, T)>, a: T, b: T)
    requires es <= fs && ReachPlus(es, a, b)
    ensures ReachPlus(fs, a, b)
  {
    var c :| (a, c) in es && Reach(es, c, b);
    ReachMonotone(es, fs, c, b);
  }

  /** What a walk that refuses to enter `avoid` reaches lies outside `avoid`. */
  lemma AvoidingStaysOut<T(!new)>(es: set<(T, T)>, avoid: set<T>, a: T, b: T)
    requires Reach(Avoiding(es, avoid), a, b) && a !in avoid
    ensures b !in avoid
  {
    ReachCases(Avoiding(es, avoid), a, b);
    if a != b {
      var c := PlusLast(Avoiding(es, avoid), a, b);
    }
  }

  /** Everything reached from `a` is in `avoid` or reached without entering `avoid`, when `avoid` is closed. */
  lemma AvoidingClosed<T(!new)>(es: set<(T, T)>, avoid: set<T>, a: T, b: T)
    requires Closed(es, avoid) && Reach(es, a, b)
    ensures b in avoid || Reach(Avoiding(es, avoid), a, b)
  {
    var p: seq<T> :| IsPath(es, p) && p[0] == a && p[|p| - 1] == b;
    if b !in avoid {
      forall i | 0 <= i < |p| ensures p[i] !in avoid {
        if p[i] in avoid {
          PathStaysIn(es, avoid, p[i..]);
        }
      }
      assert IsPath(Avoiding(es, avoid), p);
    }
  }

  /** In a graph without cycles every nonempty set of nodes has a member none of whose predecessors is in the set. */
  lemma {:induction false} AcyclicHasSource<T(!new)>(es: set<(T, T)>, s: set<T>) returns (m: T)
    requires Acyclic(es) && s != {}
    ensures m in s && forall a :: a in s ==> (a, m) !in es
    decreases |s|
  {
    var n :| n in s;
    ghost var above := set a | a in s && ReachPlus(es, a, n);
    if forall a :: a in s ==> !ReachPlus(es, a, n) {
      m := n;
      forall a | a in s ensures (a, m) !in es {
        if (a, m) in es { ReachEdge(es, a, n); }
      }
    } else {
      var x :| x in s && ReachPlus(es, x, n);
      assert x in above;
      assert n !in above;
      assert above < s;
      SubsetSmaller(above, s);
      m := AcyclicHasSource(es, above);
      forall a | a in s ensures (a, m) !in es {
        if (a, m) in es {
          PlusReach(es, m, n);
          ReachEdge(es, a, m);
          PlusThenReach(es, a, m, n);
        }
      }
    }
  }

  /** How much of `all` a walk has still to mark. */
  ghost function Left<T>(all: set<T>, marked: set<T>): nat {
    |all - marked|
  }

  lemma Shrinks<T>(all: set<T>, before: set<T>, after: set<T>, x: T)
    requires x in all && x !in before && after == before + {x}
    ensures Left(all, after) == Left(all, before) - 1
  {
    assert all - before == (all - after) + {x};
  }

  lemma NoMoreLeft<T>(all: set<T>, before: set<T>, after: set<T>)
    requires before <= after
    ensures Left(all, after) <= Left(all, before)
  {
    SubsetSize(all - after, all - before);
  }

  lemma {:induction false} SubsetSmaller<T>(a: set<T>, b: set<T>)
    requires a < b
    ensures |a| < |b|
  {
    SubsetSize(a, b);
    assert b == a + (b - a);
    assert b - a != {};
  }

  lemma {:induction false} SubsetSize<T>(a: set<T>, b: set<T>)
    requires a <= b
    ensures |a| <= |b|
  {
    if a != {} {
      var x :| x in a;
      SubsetSize(a - {x}, b - {x});
    }
  }
}
