/** Replacing the leaves of a value: the walk that rebuilds containers, and exactly when what it builds is the
    value with every leaf replaced. */
module Substitution {
  import opened Reachability
  import opened ValueGraph

  datatype Outcome = Done(value: Value) | RefusedSet

  /** The heap is the old one, untouched, with containers added from `base` up, each referring only to older ones. */
  ghost predicate Extends(h0: Heap, base: Id, h: Heap, next: Id) {
    && base <= next
    && (forall id :: id in h0 ==> id < base && id in h && h[id] == h0[id])
    && (forall id :: id in h ==> id < next && (id in h0 || base <= id))
    && (forall id, k :: id in h && id !in h0 && 0 <= k < |h[id].children| && h[id].children[k].Ref? ==>
          h[id].children[k].id in h && h[id].children[k].id < id)
  }

  /** What became of one child of container `a`: a leaf is replaced; a container is replaced by what it was
      rebuilt as, except that one the walk was still inside, which contains `a`, is left as it was. */
  ghost predicate ChildOk(h0: Heap, f: Leaf -> Value, memo: map<Id, Value>, open: set<Id>, a: Id, before: Value,
                          after: Value) {
    match before
    case Leaf(l) => after == f(l)
    case Ref(c) => c in memo && ((c !in open && after == memo[c]) || (after == before && Reach(EdgesOf(h0), c, a)))
  }

  /** A finished container: itself if no child changed, otherwise a new container of the same kind. */
  ghost predicate Finished(h0: Heap, f: Leaf -> Value, h: Heap, memo: map<Id, Value>, open: set<Id>, a: Id) {
    a in h0 && a in memo && memo[a].Ref? && memo[a].id in h &&
    var was, now := h0[a], h[memo[a].id];
    && now.kind == was.kind && |now.children| == |was.children|
    && (memo[a] == Ref(a) || (memo[a].id !in h0 && now.children != was.children && !was.kind.SetOf?))
    && forall k :: 0 <= k < |was.children| ==> ChildOk(h0, f, memo, open, a, was.children[k], now.children[k])
  }

  ghost predicate MemoOk(h0: Heap, f: Leaf -> Value, h: Heap, memo: map<Id, Value>, open: set<Id>) {
    && memo.Keys <= h0.Keys && open <= memo.Keys
    && (forall a :: a in open ==> memo[a] == Ref(a))
    && (forall a :: a in memo && a !in open ==> Finished(h0, f, h, memo, open, a))
  }

  ghost predicate TransformInHeap(h: Heap, f: Leaf -> Value) {
    forall l :: InHeap(h, f(l))
  }

  /** A set reached from `v` has a leaf inside it that the transformation changes. */
  ghost predicate ChangesASet(h0: Heap, f: Leaf -> Value, v: Value) {
    exists s, l :: s in h0 && h0[s].kind.SetOf? && Within(h0, v, s) && LeafWithin(h0, Ref(s), l) && f(l) != Leaf(l)
  }

  ghost predicate Changes(h0: Heap, f: Leaf -> Value, v: Value) {
    exists l :: LeafWithin(h0, v, l) && f(l) != Leaf(l)
  }

  /** No leaf directly in the container changes. */
  ghost predicate LeavesKept(h0: Heap, f: Leaf -> Value, a: Id) {
    a in h0 ==> forall k :: 0 <= k < |h0[a].children| && h0[a].children[k].Leaf? ==>
      f(h0[a].children[k].leaf) == h0[a].children[k]
  }

  /** No container entered since `memo0` has a leaf in it that changes. */
  ghost predicate KeptSince(h0: Heap, f: Leaf -> Value, memo0: map<Id, Value>, memo: map<Id, Value>) {
    forall a :: a in memo && a !in memo0 ==> LeavesKept(h0, f, a)
  }

  // ----- Steps of the walk

  lemma FinishedGrows(h0: Heap, f: Leaf -> Value, h: Heap, h': Heap, memo: map<Id, Value>, memo': map<Id, Value>,
                      open: set<Id>, open': set<Id>, a: Id)
    requires Finished(h0, f, h, memo, open, a) && a !in open
    requires forall id :: id in h ==> id in h' && h'[id] == h[id]
    requires memo.Keys <= memo'.Keys && forall c :: c in memo && c !in open ==> c !in open' && memo'[c] == memo[c]
    ensures Finished(h0, f, h', memo', open', a)
  {
    var was, now := h0[a], h[memo[a].id];
    forall k | 0 <= k < |was.children| ensures ChildOk(h0, f, memo', open', a, was.children[k], now.children[k]) {
      assert ChildOk(h0, f, memo, open, a, was.children[k], now.children[k]);
    }
  }

  lemma Seeded(h0: Heap, f: Leaf -> Value, h: Heap, memo: map<Id, Value>, open: set<Id>, a: Id)
    requires MemoOk(h0, f, h, memo, open) && a in h0 && a !in memo
    ensures a !in open && MemoOk(h0, f, h, memo[a := Ref(a)], open + {a})
  {
    var memo' := memo[a := Ref(a)];
    forall c | c in memo' && c !in open + {a} ensures Finished(h0, f, h, memo', open + {a}, c) {
      FinishedGrows(h0, f, h, h, memo, memo', open, open + {a}, c);
    }
  }

  /** The container the walk is leaving is finished, as itself or as the new container `to`. */
  lemma Closing(h0: Heap, f: Leaf -> Value, h: Heap, memo: map<Id, Value>, open: set<Id>, a: Id,
                   h': Heap, to: Id)
    requires MemoOk(h0, f, h, memo, open + {a}) && a !in open && a in memo && a in h0
    requires forall id :: id in h ==> id in h' && h'[id] == h[id]
    requires to in h' && h'[to].kind == h0[a].kind && |h'[to].children| == |h0[a].children|
    requires to == a || (to !in h0 && h'[to].children != h0[a].children && !h0[a].kind.SetOf?)
    requires forall k :: 0 <= k < |h0[a].children| ==>
      ChildOk(h0, f, memo, open + {a}, a, h0[a].children[k], h'[to].children[k])
    ensures MemoOk(h0, f, h', memo[a := Ref(to)], open)
  {
    var memo' := memo[a := Ref(to)];
    forall c | c in memo' && c !in open ensures Finished(h0, f, h', memo', open, c) {
      if c == a {
        forall k | 0 <= k < |h0[a].children|
          ensures ChildOk(h0, f, memo', open, a, h0[a].children[k], h'[to].children[k])
        {
          assert ChildOk(h0, f, memo, open + {a}, a, h0[a].children[k], h'[to].children[k]);
        }
      } else {
        FinishedGrows(h0, f, h, h', memo, memo', open + {a}, open, c);
      }
    }
  }

  /** A finished container that was rebuilt has a changed leaf inside it. */
  lemma {:induction false} RebuiltChanges(h0: Heap, f: Leaf -> Value, base: Id, h: Heap, next: Id,
                                          memo: map<Id, Value>, open: set<Id>, a: Id)
    requires ClosedHeap(h0) && Extends(h0, base, h, next) && MemoOk(h0, f, h, memo, open)
    requires a in memo && a !in open && memo[a] != Ref(a)
    ensures Changes(h0, f, Ref(a))
    decreases if memo[a].Ref? then memo[a].id else 0
  {
    assert Finished(h0, f, h, memo, open, a);
    var was, now := h0[a], h[memo[a].id];
    var k :| 0 <= k < |was.children| && now.children[k] != was.children[k];
    assert ChildOk(h0, f, memo, open, a, was.children[k], now.children[k]);
    ChangedChild(h0, f, base, h, next, memo, open, a, k, now.children[k], memo[a].id);
  }

  /** So has a container one of whose children changed. */
  lemma {:induction false} ChangedChild(h0: Heap, f: Leaf -> Value, base: Id, h: Heap, next: Id,
                                        memo: map<Id, Value>, open: set<Id>, a: Id, k: nat, now: Value, bound: Id)
    requires ClosedHeap(h0) && Extends(h0, base, h, next) && MemoOk(h0, f, h, memo, open)
    requires a in h0 && k < |h0[a].children| && now != h0[a].children[k]
    requires ChildOk(h0, f, memo, open, a, h0[a].children[k], now)
    requires now.Ref? && h0[a].children[k].Ref? ==> now.id < bound
    ensures Changes(h0, f, Ref(a))
    decreases bound, 0
  {
    match h0[a].children[k]
    case Leaf(l) =>
      assert LeafWithin(h0, h0[a].children[k], l);
      LeafWithinChild(h0, a, k, l);
    case Ref(c) =>
      assert Finished(h0, f, h, memo, open, c);
      RebuiltChanges(h0, f, base, h, next, memo, open, c);
      var l :| LeafWithin(h0, Ref(c), l) && f(l) != Leaf(l);
      LeafWithinChild(h0, a, k, l);
  }

  lemma ChildOkGrows(h0: Heap, f: Leaf -> Value, memo: map<Id, Value>, memo': map<Id, Value>, open: set<Id>, a: Id,
                     before: Value, after: Value)
    requires ChildOk(h0, f, memo, open, a, before, after)
    requires MemoGrows(memo, memo')
    ensures ChildOk(h0, f, memo', open, a, before, after)
  {
  }

  ghost predicate MemoGrows(memo: map<Id, Value>, memo': map<Id, Value>) {
    memo.Keys <= memo'.Keys && forall c :: c in memo ==> memo'[c] == memo[c]
  }

  ghost predicate HeapGrows(h: Heap, h': Heap) {
    forall id :: id in h ==> id in h' && h'[id] == h[id]
  }

  /** What one call hands back for `v`. */
  ghost predicate Answer(f: Leaf -> Value, memo: map<Id, Value>, open: set<Id>, v: Value, r: Value) {
    match v
    case Leaf(l) => r == f(l)
    case Ref(c) => c in memo && r == memo[c] && (c in open ==> r == v)
  }

  lemma AnswerIsChildOk(h0: Heap, f: Leaf -> Value, memo: map<Id, Value>, open: set<Id>, a: Id, v: Value, r: Value)
    requires Answer(f, memo, open + {a}, v, r) && OpenReaches(h0, open, Ref(a))
    ensures ChildOk(h0, f, memo, open + {a}, a, v, r)
  {
    ReachRefl(EdgesOf(h0), a);
    if v.Ref? && v.id in open { PlusReach(EdgesOf(h0), v.id, a); }
  }

  /** The first `k` children have been replaced by `now`. */
  ghost predicate ChildrenOk(h0: Heap, f: Leaf -> Value, h: Heap, memo: map<Id, Value>, open: set<Id>, a: Id,
                             now: seq<Value>)
    requires a in h0 && |now| <= |h0[a].children|
  {
    && (forall k :: 0 <= k < |now| ==> ChildOk(h0, f, memo, open, a, h0[a].children[k], now[k]))
    && (forall k :: 0 <= k < |now| ==> InHeap(h, now[k]))
  }

  lemma ChildrenOkStep(h0: Heap, f: Leaf -> Value, h: Heap, h': Heap, memo: map<Id, Value>, memo': map<Id, Value>,
                       open: set<Id>, a: Id, now: seq<Value>, r: Value)
    requires a in h0 && |now| < |h0[a].children| && ChildrenOk(h0, f, h, memo, open + {a}, a, now)
    requires MemoGrows(memo, memo') && HeapGrows(h, h') && OpenReaches(h0, open, Ref(a))
    requires Answer(f, memo', open + {a}, h0[a].children[|now|], r) && InHeap(h', r)
    ensures ChildrenOk(h0, f, h', memo', open + {a}, a, now + [r])
  {
    forall k | 0 <= k < |now| ensures ChildOk(h0, f, memo', open + {a}, a, h0[a].children[k], now[k]) {
      assert ChildOk(h0, f, memo, open + {a}, a, h0[a].children[k], now[k]);
      ChildOkGrows(h0, f, memo, memo', open + {a}, a, h0[a].children[k], now[k]);
    }
    forall k | 0 <= k < |now| ensures InHeap(h', now[k]) {
      assert InHeap(h, now[k]);
    }
    AnswerIsChildOk(h0, f, memo', open, a, h0[a].children[|now|], r);
  }

  /** No child changed: the container is kept. */
  lemma Kept(h0: Heap, f: Leaf -> Value, base: Id, h: Heap, next: Id, memo: map<Id, Value>, open: set<Id>, a: Id)
    requires Extends(h0, base, h, next) && MemoOk(h0, f, h, memo, open + {a}) && a !in open && a in h0 && a in memo
    requires ChildrenOk(h0, f, h, memo, open + {a}, a, h0[a].children)
    ensures MemoOk(h0, f, h, memo, open)
  {
    Closing(h0, f, h, memo, open, a, h, a);
    assert memo[a := Ref(a)] == memo;
  }

  /** Some child changed: a new container takes its place. */
  lemma Rebuilt(h0: Heap, f: Leaf -> Value, base: Id, h: Heap, next: Id, memo: map<Id, Value>, open: set<Id>, a: Id,
                now: seq<Value>)
    requires Extends(h0, base, h, next) && MemoOk(h0, f, h, memo, open + {a}) && a !in open && a in h0 && a in memo
    requires |now| == |h0[a].children| && now != h0[a].children && !h0[a].kind.SetOf?
    requires ChildrenOk(h0, f, h, memo, open + {a}, a, now)
    ensures var h' := h[next := Container(h0[a].kind, now)];
      && HeapGrows(h, h') && Extends(h0, base, h', next + 1)
      && MemoOk(h0, f, h', memo[a := Ref(next)], open)
  {
    var h' := h[next := Container(h0[a].kind, now)];
    assert next !in h;
    forall id, k | id in h' && id !in h0 && 0 <= k < |h'[id].children| && h'[id].children[k].Ref?
      ensures h'[id].children[k].id in h' && h'[id].children[k].id < id
    {
      if id == next { assert InHeap(h, now[k]); }
    }
    Closing(h0, f, h, memo, open, a, h', next);
  }

  /** A set some member of which changed cannot be rebuilt. */
  lemma SetChanged(h0: Heap, f: Leaf -> Value, base: Id, h: Heap, next: Id, memo: map<Id, Value>, open: set<Id>,
                   a: Id,
                   now: seq<Value>)
    requires ClosedHeap(h0) && Extends(h0, base, h, next) && MemoOk(h0, f, h, memo, open + {a}) && a in h0
    requires |now| == |h0[a].children| && now != h0[a].children && h0[a].kind.SetOf?
    requires ChildrenOk(h0, f, h, memo, open + {a}, a, now)
    ensures ChangesASet(h0, f, Ref(a))
  {
    var k :| 0 <= k < |now| && now[k] != h0[a].children[k];
    assert InHeap(h, now[k]);
    ChangedChild(h0, f, base, h, next, memo, open + {a}, a, k, now[k], next);
    ReachRefl(EdgesOf(h0), a);
    assert Within(h0, Ref(a), a);
  }

  lemma SetChangedInChild(h0: Heap, f: Leaf -> Value, a: Id, k: nat)
    requires ClosedHeap(h0) && a in h0 && k < |h0[a].children| && ChangesASet(h0, f, h0[a].children[k])
    ensures ChangesASet(h0, f, Ref(a))
  {
    var s, l :| s in h0 && h0[s].kind.SetOf? && Within(h0, h0[a].children[k], s) && LeafWithin(h0, Ref(s), l) && f(l) != Leaf(l);
    WithinChild(h0, a, k, s);
  }

  lemma MemoInHeap(h0: Heap, f: Leaf -> Value, base: Id, h: Heap, next: Id, memo: map<Id, Value>, open: set<Id>,
                   a: Id)
    requires Extends(h0, base, h, next) && MemoOk(h0, f, h, memo, open) && a in memo
    ensures InHeap(h, memo[a])
  {
    if a !in open { assert Finished(h0, f, h, memo, open, a); }
  }

  // The answers one call can give, each with what it leaves behind.

  lemma LeafAnswer(h0: Heap, f: Leaf -> Value, base: Id, h: Heap, next: Id, memo: map<Id, Value>, open: set<Id>,
                   l: Leaf)
    requires TransformInHeap(h0, f) && Extends(h0, base, h, next)
    ensures Answer(f, memo, open, Leaf(l), f(l)) && InHeap(h, f(l)) && HeapGrows(h, h) && MemoGrows(memo, memo)
  {
    assert InHeap(h0, f(l));
  }

  lemma MemoAnswer(h0: Heap, f: Leaf -> Value, base: Id, h: Heap, next: Id, memo: map<Id, Value>, open: set<Id>,
                   a: Id)
    requires Extends(h0, base, h, next) && MemoOk(h0, f, h, memo, open) && a in memo
    ensures Answer(f, memo, open, Ref(a), memo[a]) && InHeap(h, memo[a]) && HeapGrows(h, h) && MemoGrows(memo, memo)
  {
    MemoInHeap(h0, f, base, h, next, memo, open, a);
  }

  lemma InBoth(h0: Heap, base: Id, h: Heap, next: Id, v: Value)
    requires Extends(h0, base, h, next) && InHeap(h0, v)
    ensures InHeap(h, v) && (v.Ref? ==> v.id in h0 && v.id in h && h[v.id] == h0[v.id])
  {
  }

  lemma NothingYet(h0: Heap, f: Leaf -> Value, h: Heap, memo0: map<Id, Value>, memo: map<Id, Value>, open: set<Id>,
                   a: Id)
    requires a in h0
    ensures ChildrenOk(h0, f, h, memo, open, a, []) && HeapGrows(h, h) && MemoGrows(memo, memo)
  {
  }

  lemma Grown(h0: Heap, h1: Heap, h2: Heap, m0: map<Id, Value>, m1: map<Id, Value>, m2: map<Id, Value>)
    requires HeapGrows(h0, h1) && HeapGrows(h1, h2) && MemoGrows(m0, m1) && MemoGrows(m1, m2)
    ensures HeapGrows(h0, h2) && MemoGrows(m0, m2) && m1.Keys <= m2.Keys
  {
  }

  lemma KeptAnswer(h0: Heap, f: Leaf -> Value, base: Id, h: Heap, next: Id, memo0: map<Id, Value>, memo: map<Id,
                   Value>,
                   open: set<Id>, a: Id)
    requires Extends(h0, base, h, next) && a in h0 && a !in memo0 && MemoGrows(memo0[a := Ref(a)], memo)
    ensures Answer(f, memo, open, Ref(a), Ref(a)) && InHeap(h, Ref(a)) && MemoGrows(memo0, memo)
  {
    assert memo[a] == Ref(a);
  }

  lemma RebuiltAnswer(f: Leaf -> Value, h0: Heap, h: Heap, next: Id, c: Container, memo0: map<Id, Value>,
                      memo: map<Id, Value>, open: set<Id>, a: Id)
    requires HeapGrows(h0, h) && HeapGrows(h, h[next := c]) && a !in memo0 && a !in open
    requires MemoGrows(memo0[a := Ref(a)], memo)
    ensures HeapGrows(h0, h[next := c]) && MemoGrows(memo0, memo[a := Ref(next)])
    ensures Answer(f, memo[a := Ref(next)], open, Ref(a), Ref(next)) && InHeap(h[next := c], Ref(next))
  {
  }

  // A container that comes back as itself tells that nothing entered for it has a leaf that changes: an answer that
  // differs makes every container above it differ.

  lemma KeptSinceMore(h0: Heap, f: Leaf -> Value, memo0: map<Id, Value>, memo1: map<Id, Value>, memo: map<Id, Value>)
    requires KeptSince(h0, f, memo0, memo1) && KeptSince(h0, f, memo1, memo)
    ensures KeptSince(h0, f, memo0, memo)
  {
  }

  lemma KeptSinceEntered(h0: Heap, f: Leaf -> Value, h: Heap, memo0: map<Id, Value>, memo: map<Id, Value>, open: set<Id>,
                         a: Id)
    requires a in h0 && ChildrenOk(h0, f, h, memo, open, a, h0[a].children)
    requires KeptSince(h0, f, memo0[a := Ref(a)], memo)
    ensures KeptSince(h0, f, memo0, memo)
  {
    forall k | 0 <= k < |h0[a].children| && h0[a].children[k].Leaf?
      ensures f(h0[a].children[k].leaf) == h0[a].children[k]
    {
      assert ChildOk(h0, f, memo, open, a, h0[a].children[k], h0[a].children[k]);
    }
  }

  lemma OneMoreAlike<T>(all: seq<T>, some: seq<T>, x: T)
    requires |some| < |all|
    ensures some + [x] == all[..|some| + 1] <==> some == all[..|some|] && x == all[|some|]
  {
    if some + [x] == all[..|some| + 1] {
      assert (some + [x])[..|some|] == some && (some + [x])[|some|] == x;
    }
  }

  lemma NoneEntered(h0: Heap, f: Leaf -> Value, memo: map<Id, Value>)
    ensures KeptSince(h0, f, memo, memo)
  {
  }

  class SubstituteWalk {
    const f: Leaf -> Value
    ghost const original: Heap
    ghost const base: Id
    var heap: Heap
    var next: Id
    var memo: map<Id, Value>

    constructor (heap: Heap, next: Id, f: Leaf -> Value)
      requires forall id :: id in heap ==> id < next
      ensures this.f == f && original == heap && base == next && this.heap == heap && this.next == next && memo == map[]
    {
      this.f, this.original, this.base := f, heap, next;
      this.heap, this.next, this.memo := heap, next, map[];
    }

    ghost predicate Valid(open: set<Id>)
      reads this
    {
      && ClosedHeap(original) && TransformInHeap(original, f)
      && Extends(original, base, heap, next) && MemoOk(original, f, heap, memo, open)
    }

    method Substitute(v: Value, ghost open: set<Id>) returns (r: Outcome)
      requires Valid(open) && InHeap(original, v) && OpenReaches(original, open, v)
      modifies this
      ensures r.Done? ==> Valid(open) && HeapGrows(old(heap), heap) && MemoGrows(old(memo), memo)
      ensures r.Done? ==> Answer(f, memo, open, v, r.value) && InHeap(heap, r.value)
      ensures r.Done? && r.value == v ==> KeptSince(original, f, old(memo), memo)
      ensures r.RefusedSet? ==> ChangesASet(original, f, v)
      decreases Left(original.Keys, memo.Keys)
    {
      hide ClosedHeap, TransformInHeap, Extends, MemoOk, OpenReaches, ChangesASet, ChildrenOk, HeapGrows, MemoGrows,
           Answer, Left, InHeap, KeptSince;
      NoneEntered(original, f, memo);
      if v.Leaf? {
        LeafAnswer(original, f, base, heap, next, memo, open, v.leaf);
        return Done(f(v.leaf));
      }
      if v.id in memo {
        MemoAnswer(original, f, base, heap, next, memo, open, v.id);
        return Done(memo[v.id]);
      }
      InBoth(original, base, heap, next, v);
      ghost var heap0, memo0 := heap, memo;
      memo := memo[v.id := v];
      Seeded(original, f, heap, memo0, open, v.id);
      Shrinks(original.Keys, memo0.Keys, memo.Keys, v.id);
      var kind, children := heap[v.id].kind, heap[v.id].children;
      var substituted: seq<Value> := [];
      NothingYet(original, f, heap0, memo0, memo, open + {v.id}, v.id);
      NoneEntered(original, f, memo);
      while |substituted| < |children|
        invariant |substituted| <= |children| && Valid(open + {v.id}) && v.id in memo
        invariant HeapGrows(heap0, heap) && MemoGrows(memo0[v.id := v], memo)
        invariant ChildrenOk(original, f, heap, memo, open + {v.id}, v.id, substituted)
        invariant Left(original.Keys, memo.Keys) < Left(original.Keys, memo0.Keys)
        invariant substituted == children[..|substituted|] ==> KeptSince(original, f, memo0[v.id := v], memo)
        decreases |children| - |substituted|
      {
        ghost var heap1, memo1 := heap, memo;
        ChildInHeap(original, v.id, |substituted|);
        OpenReachesChild(original, open, v.id, |substituted|);
        var child := Substitute(children[|substituted|], open + {v.id});
        if child.RefusedSet? {
          SetChangedInChild(original, f, v.id, |substituted|);
          return RefusedSet;
        }
        ChildrenOkStep(original, f, heap1, heap, memo1, memo, open, v.id, substituted, child.value);
        Grown(heap0, heap1, heap, memo0[v.id := v], memo1, memo);
        NoMoreLeft(original.Keys, memo1.Keys, memo.Keys);
        if substituted == children[..|substituted|] && child.value == children[|substituted|] {
          KeptSinceMore(original, f, memo0[v.id := v], memo1, memo);
        }
        OneMoreAlike(children, substituted, child.value);
        substituted := substituted + [child.value];
      }
      if substituted == children {
        assert children[..|substituted|] == children;
        KeptSinceEntered(original, f, heap, memo0, memo, open + {v.id}, v.id);
        Kept(original, f, base, heap, next, memo, open, v.id);
        KeptAnswer(original, f, base, heap, next, memo0, memo, open, v.id);
        return Done(v);
      }
      if kind.SetOf? {
        SetChanged(original, f, base, heap, next, memo, open, v.id, substituted);
        return RefusedSet;
      }
      Rebuilt(original, f, base, heap, next, memo, open, v.id, substituted);
      RebuiltAnswer(f, heap0, heap, next, Container(kind, substituted), memo0, memo, open, v.id);
      heap := heap[next := Container(kind, substituted)];
      memo := memo[v.id := Ref(next)];
      r := Done(Ref(next));
      next := next + 1;
    }
  }

  // ----- What the result means

  /** A value opened up to a given depth. */
  datatype Tree = Cut | LeafTree(leaf: Leaf) | Node(kind: Kind, children: seq<Tree>)

  ghost function Unfold(h: Heap, v: Value, n: nat): Tree
    decreases n
  {
    if n == 0 then Cut
    else
      match v
      case Leaf(l) => LeafTree(l)
      case Ref(a) =>
        if a !in h then Cut
        else Node(h[a].kind, seq(|h[a].children|, i requires 0 <= i < |h[a].children| => Unfold(h, h[a].children[i], n - 1)))
  }

  /** The original value opened up, with what the transformation gives in place of each leaf. */
  ghost function Mapped(h0: Heap, f: Leaf -> Value, v: Value, n: nat): Tree
    decreases n
  {
    if n == 0 then Cut
    else
      match v
      case Leaf(l) => Unfold(h0, f(l), n)
      case Ref(a) =>
        if a !in h0 then Cut
        else Node(h0[a].kind,
                  seq(|h0[a].children|, i requires 0 <= i < |h0[a].children| => Mapped(h0, f, h0[a].children[i], n - 1)))
  }

  /** However deep one looks, the result is the original with its leaves replaced. */
  ghost predicate IsSubstituted(h0: Heap, f: Leaf -> Value, v: Value, h: Heap, r: Value) {
    forall n: nat :: Unfold(h, r, n) == Mapped(h0, f, v, n)
  }

  /** No container inside the value that contains itself has a changed leaf inside it. Without cycles this holds. */
  ghost predicate Stable(h0: Heap, f: Leaf -> Value, v: Value) {
    forall c :: Within(h0, v, c) && ReachPlus(EdgesOf(h0), c, c) ==> !Changes(h0, f, Ref(c))
  }

  /** The state a whole walk of `v` ends in. */
  ghost predicate Finish(h0: Heap, f: Leaf -> Value, base: Id, h: Heap, next: Id, memo: map<Id, Value>, v: Value,
                         r: Value) {
    && ClosedHeap(h0) && InHeap(h0, v) && TransformInHeap(h0, f)
    && Extends(h0, base, h, next) && MemoOk(h0, f, h, memo, {}) && Answer(f, memo, {}, v, r)
  }

  function Image(f: Leaf -> Value, memo: map<Id, Value>, v: Value): Value
    requires v.Ref? ==> v.id in memo
  {
    match v
    case Leaf(l) => f(l)
    case Ref(c) => memo[c]
  }

  lemma WalkedAll(h0: Heap, f: Leaf -> Value, base: Id, h: Heap, next: Id, memo: map<Id, Value>, v: Value, r: Value,
                  a: Id)
    requires Finish(h0, f, base, h, next, memo, v, r) && Within(h0, v, a)
    ensures a in memo && Finished(h0, f, h, memo, {}, a)
  {
    forall x, y | x in memo.Keys && (x, y) in EdgesOf(h0) ensures y in memo.Keys {
      assert Finished(h0, f, h, memo, {}, x);
      var k := EdgeChild(h0, x, y);
      assert ChildOk(h0, f, memo, {}, x, h0[x].children[k], h[memo[x].id].children[k]);
    }
    ReachStaysIn(EdgesOf(h0), memo.Keys, v.id, a);
  }

  /** Each container inside the value has one image, and the images fit together: the children of an image are the
      images of the children. */
  ghost predicate Fits(h0: Heap, f: Leaf -> Value, h: Heap, memo: map<Id, Value>, a: Id) {
    && a in h0 && a in memo && memo[a].Ref? && memo[a].id in h
    && h[memo[a].id].kind == h0[a].kind && |h[memo[a].id].children| == |h0[a].children|
    && forall k :: 0 <= k < |h0[a].children| ==>
         InHeap(h0, h0[a].children[k]) && (h0[a].children[k].Ref? ==> h0[a].children[k].id in memo)
         && h[memo[a].id].children[k] == Image(f, memo, h0[a].children[k])
  }

  lemma StableWithin(h0: Heap, f: Leaf -> Value, v: Value, a: Id)
    requires Stable(h0, f, v) && Within(h0, v, a)
    ensures Stable(h0, f, Ref(a))
  {
    forall c | Within(h0, Ref(a), c) && ReachPlus(EdgesOf(h0), c, c) ensures !Changes(h0, f, Ref(c)) {
      ReachTrans(EdgesOf(h0), v.id, a, c);
    }
  }

  /** If no cycle inside container `a` has a changed leaf inside it, the image of `a` fits. */
  lemma StableFits(h0: Heap, f: Leaf -> Value, base: Id, h: Heap, next: Id, memo: map<Id, Value>, v: Value,
                   r: Value, a: Id)
    requires Finish(h0, f, base, h, next, memo, v, r) && Within(h0, v, a) && Stable(h0, f, Ref(a))
    ensures Fits(h0, f, h, memo, a)
  {
    WalkedAll(h0, f, base, h, next, memo, v, r, a);
    var was, now := h0[a].children, h[memo[a].id].children;
    forall k | 0 <= k < |was|
      ensures InHeap(h0, was[k]) && (was[k].Ref? ==> was[k].id in memo) && now[k] == Image(f, memo, was[k])
    {
      ChildInHeap(h0, a, k);
      assert ChildOk(h0, f, memo, {}, a, was[k], now[k]);
      if was[k].Ref? && now[k] != memo[was[k].id] {
        var c := was[k].id;
        ChildEdge(h0, a, k);
        ReachStep(EdgesOf(h0), c, a, c);
        ReachEdge(EdgesOf(h0), a, c);
        RebuiltChanges(h0, f, base, h, next, memo, {}, c);
      }
    }
  }

  lemma {:induction false} UnfoldOld(h0: Heap, base: Id, h: Heap, next: Id, w: Value, n: nat)
    requires ClosedHeap(h0) && Extends(h0, base, h, next) && InHeap(h0, w)
    ensures Unfold(h, w, n) == Unfold(h0, w, n)
    decreases n
  {
    if n > 0 && w.Ref? {
      var cs := h0[w.id].children;
      forall k | 0 <= k < |cs| ensures Unfold(h, cs[k], n - 1) == Unfold(h0, cs[k], n - 1) {
        ChildInHeap(h0, w.id, k);
        UnfoldOld(h0, base, h, next, cs[k], n - 1);
      }
    }
  }

  lemma {:induction false} FitsUnfolds(h0: Heap, f: Leaf -> Value, base: Id, h: Heap, next: Id, memo: map<Id,
                                       Value>, u: Value, n: nat)
    requires ClosedHeap(h0) && TransformInHeap(h0, f) && Extends(h0, base, h, next)
    requires InHeap(h0, u) && (u.Ref? ==> u.id in memo)
    requires forall a :: Within(h0, u, a) ==> Fits(h0, f, h, memo, a)
    ensures Unfold(h, Image(f, memo, u), n) == Mapped(h0, f, u, n)
    decreases n
  {
    if n > 0 {
      match u
      case Leaf(l) =>
        assert InHeap(h0, f(l));
        UnfoldOld(h0, base, h, next, f(l), n);
      case Ref(a) =>
        ReachRefl(EdgesOf(h0), a);
        assert Fits(h0, f, h, memo, a);
        var was, now := h0[a].children, h[memo[a].id].children;
        forall k | 0 <= k < |was| ensures Unfold(h, now[k], n - 1) == Mapped(h0, f, was[k], n - 1) {
          forall b | Within(h0, was[k], b) ensures Fits(h0, f, h, memo, b) {
            WithinChild(h0, a, k, b);
          }
          FitsUnfolds(h0, f, base, h, next, memo, was[k], n - 1);
        }
    }
  }

  /** Where no cycle has a changed leaf inside it, the result is the value with its leaves replaced. */
  lemma StableIsSubstituted(h0: Heap, f: Leaf -> Value, base: Id, h: Heap, next: Id, memo: map<Id, Value>, v: Value,
                            r: Value)
    requires Finish(h0, f, base, h, next, memo, v, r) && Stable(h0, f, v)
    ensures IsSubstituted(h0, f, v, h, r)
  {
    forall a | Within(h0, v, a) ensures Fits(h0, f, h, memo, a) {
      StableWithin(h0, f, v, a);
      StableFits(h0, f, base, h, next, memo, v, r, a);
    }
    forall n: nat ensures Unfold(h, r, n) == Mapped(h0, f, v, n) {
      FitsUnfolds(h0, f, base, h, next, memo, v, n);
    }
  }

  // A container that contains itself, and a changed leaf inside it: the rebuilt containers are finitely many and
  // refer only to older ones, so going round the cycle often enough leads back to the originals.

  /** `w` stands for container `u` in the result: its image, or the original. */
  ghost predicate StandsFor(memo: map<Id, Value>, u: Id, w: Value) {
    w == Ref(u) || (u in memo && w == memo[u])
  }

  /** How many more new containers a path through the result can meet. */
  function NewBelow(base: Id, h0: Heap, w: Value): nat {
    if w.Ref? && w.id !in h0 && base <= w.id then w.id - base + 1 else 0
  }

  lemma {:induction false} LongPathMissesLeaf(h0: Heap, f: Leaf -> Value, base: Id, h: Heap, next: Id, memo: map<Id,
                                              Value>,
                                              p: seq<Id>, w: Value, l: Leaf) returns (n: nat)
    requires ClosedHeap(h0) && TransformInHeap(h0, f) && Extends(h0, base, h, next)
    requires forall i :: 0 <= i < |p| ==> p[i] in memo && Finished(h0, f, h, memo, {}, p[i])
    requires IsPath(EdgesOf(h0), p) && StandsFor(memo, p[0], w) && |p| > NewBelow(base, h0, w)
    requires p[|p| - 1] in h0 && Leaf(l) in h0[p[|p| - 1]].children && f(l) != Leaf(l)
    ensures Unfold(h, w, n) != Mapped(h0, f, Ref(p[0]), n)
    decreases |p|
  {
    var u := p[0];
    assert Finished(h0, f, h, memo, {}, u);
    assert w.Ref? && w.id in h;
    var was, now := h0[u].children, h[w.id].children;
    if |p| == 1 {
      assert w == Ref(u);
      var k :| 0 <= k < |was| && was[k] == Leaf(l);
      n := 2;
      LeafDiffers(h0, f, l);
      assert Unfold(h, w, 2).children[k] == Unfold(h, now[k], 1);
      assert Mapped(h0, f, Ref(u), 2).children[k] == Mapped(h0, f, was[k], 1);
    } else {
      assert (p[0], p[1]) in EdgesOf(h0);
      var k := EdgeChild(h0, u, p[1]);
      if w == Ref(u) {
        assert now[k] == Ref(p[1]);
      } else {
        assert ChildOk(h0, f, memo, {}, u, was[k], now[k]);
        NextIsOlder(h0, f, base, h, next, memo, u, p[1], w, now[k]);
      }
      var m := LongPathMissesLeaf(h0, f, base, h, next, memo, p[1..], now[k], l);
      n := m + 1;
      assert |now| == |was| by { assert Finished(h0, f, h, memo, {}, u); }
      assert Unfold(h, w, n).children[k] == Unfold(h, now[k], m);
      assert Mapped(h0, f, Ref(u), n).children[k] == Mapped(h0, f, was[k], m);
    }
  }

  lemma NextIsOlder(h0: Heap, f: Leaf -> Value, base: Id, h: Heap, next: Id, memo: map<Id, Value>, u: Id, u1: Id,
                    w: Value, w1: Value)
    requires Extends(h0, base, h, next) && u in memo && w == memo[u]
    requires w != Ref(u) && Finished(h0, f, h, memo, {}, u)
    requires ChildOk(h0, f, memo, {}, u, Ref(u1), w1) && w1 in h[memo[u].id].children
    requires u1 in memo && Finished(h0, f, h, memo, {}, u1)
    ensures StandsFor(memo, u1, w1) && NewBelow(base, h0, w1) < NewBelow(base, h0, w)
  {
    var k :| 0 <= k < |h[memo[u].id].children| && h[memo[u].id].children[k] == w1;
    assert w1.Ref?;
  }

  lemma LeafDiffers(h0: Heap, f: Leaf -> Value, l: Leaf)
    requires f(l) != Leaf(l) && InHeap(h0, f(l))
    ensures Unfold(h0, f(l), 1) != LeafTree(l)
  {
  }

  /** A path that goes round a cycle as often as one likes. */
  lemma {:induction false} GoRound(es: set<(Id, Id)>, a: Id, c: Id, b: Id, n: nat) returns (p: seq<Id>)
    requires Reach(es, a, c) && ReachPlus(es, c, c) && Reach(es, c, b)
    ensures IsPath(es, p) && p[0] == a && p[|p| - 1] == b && |p| > n
    decreases n
  {
    if n == 0 {
      ReachTrans(es, a, c, b);
      p :| IsPath(es, p) && p[0] == a && p[|p| - 1] == b;
    } else {
      var d :| (c, d) in es && Reach(es, d, c);
      var q := GoRound(es, d, c, b, n - 1);
      var s: seq<Id> :| IsPath(es, s) && s[0] == a && s[|s| - 1] == c;
      p := s + q;
      forall i | 0 <= i < |p| - 1 ensures (p[i], p[i + 1]) in es {
        if i >= |s| { assert p[i] == q[i - |s|] && p[i + 1] == q[i - |s| + 1]; }
      }
    }
  }

  /** Where some cycle has a changed leaf inside it, the result still holds an original somewhere and is not the
      value with its leaves replaced. */
  lemma UnstableIsNotSubstituted(h0: Heap, f: Leaf -> Value, base: Id, h: Heap, next: Id, memo: map<Id, Value>,
                                 v: Value, r: Value)
    requires Finish(h0, f, base, h, next, memo, v, r) && !Stable(h0, f, v)
    ensures !IsSubstituted(h0, f, v, h, r)
  {
    var c :| Within(h0, v, c) && ReachPlus(EdgesOf(h0), c, c) && Changes(h0, f, Ref(c));
    var l :| LeafWithin(h0, Ref(c), l) && f(l) != Leaf(l);
    var b :| b in h0 && Within(h0, Ref(c), b) && Leaf(l) in h0[b].children;
    var p := GoRound(EdgesOf(h0), v.id, c, b, next + 1);
    forall i | 0 <= i < |p| ensures p[i] in memo && Finished(h0, f, h, memo, {}, p[i]) {
      assert IsPath(EdgesOf(h0), p[..i + 1]) && p[..i + 1][0] == v.id && p[..i + 1][i] == p[i];
      assert Reach(EdgesOf(h0), v.id, p[i]);
      WalkedAll(h0, f, base, h, next, memo, v, r, p[i]);
    }
    var n := LongPathMissesLeaf(h0, f, base, h, next, memo, p, r, l);
  }

  /** Substitution is right exactly when no cycle in the value has a changed leaf inside it. */
  lemma SubstitutedIff(h0: Heap, f: Leaf -> Value, base: Id, h: Heap, next: Id, memo: map<Id, Value>, v: Value,
                       r: Value)
    requires Finish(h0, f, base, h, next, memo, v, r)
    ensures IsSubstituted(h0, f, v, h, r) <==> Stable(h0, f, v)
  {
    if Stable(h0, f, v) {
      StableIsSubstituted(h0, f, base, h, next, memo, v, r);
    } else {
      UnstableIsNotSubstituted(h0, f, base, h, next, memo, v, r);
    }
  }

  // ----- Identity and refusals

  /** A container whose image is itself has no changed leaf inside it, if no cycle inside it has one. */
  lemma KeptMeansUnchanged(h0: Heap, f: Leaf -> Value, base: Id, h: Heap, next: Id, memo: map<Id, Value>, v: Value,
                           r: Value, a: Id, l: Leaf)
    requires Finish(h0, f, base, h, next, memo, v, r) && Within(h0, v, a) && Stable(h0, f, Ref(a))
    requires a in memo && memo[a] == Ref(a) && LeafWithin(h0, Ref(a), l)
    ensures f(l) == Leaf(l)
  {
    var b :| b in h0 && Within(h0, Ref(a), b) && Leaf(l) in h0[b].children;
    var kept := set c | c in memo && memo[c] == Ref(c) && Within(h0, v, c) && Within(h0, Ref(a), c);
    ReachRefl(EdgesOf(h0), a);
    forall x, y | x in kept && (x, y) in EdgesOf(h0) ensures y in kept {
      StableWithin(h0, f, Ref(a), x);
      StableFits(h0, f, base, h, next, memo, v, r, x);
      var k := EdgeChild(h0, x, y);
      assert Image(f, memo, h0[x].children[k]) == h[memo[x].id].children[k];
      ReachStep(EdgesOf(h0), v.id, x, y);
      ReachStep(EdgesOf(h0), a, x, y);
    }
    ReachStaysIn(EdgesOf(h0), kept, a, b);
    StableWithin(h0, f, Ref(a), b);
    StableFits(h0, f, base, h, next, memo, v, r, b);
    var k :| 0 <= k < |h0[b].children| && h0[b].children[k] == Leaf(l);
    assert h[memo[b].id].children[k] == Image(f, memo, h0[b].children[k]);
  }

  /** The very same value comes back if and only if nothing in it changes. */
  lemma SameValueIff(h0: Heap, f: Leaf -> Value, base: Id, h: Heap, next: Id, memo: map<Id, Value>, v: Value,
                     r: Value)
    requires Finish(h0, f, base, h, next, memo, v, r) && (r == v ==> KeptSince(h0, f, map[], memo))
    ensures r == v <==> !Changes(h0, f, v)
  {
    if r != v {
      if v.Ref? {
        RebuiltChanges(h0, f, base, h, next, memo, {}, v.id);
      } else {
        assert LeafWithin(h0, v, v.leaf);
      }
    } else {
      forall l | LeafWithin(h0, v, l) ensures f(l) == Leaf(l) {
        if v.Ref? {
          var b :| b in h0 && Within(h0, v, b) && Leaf(l) in h0[b].children;
          WalkedAll(h0, f, base, h, next, memo, v, r, b);
          var k :| 0 <= k < |h0[b].children| && h0[b].children[k] == Leaf(l);
          assert LeavesKept(h0, f, b);
        }
      }
    }
  }

  /** No cycle inside a set has a changed leaf inside it. No set whose members are hashed holds a cycle at all. */
  ghost predicate SetsStable(h0: Heap, f: Leaf -> Value, v: Value) {
    forall s :: s in h0 && h0[s].kind.SetOf? && Within(h0, v, s) ==> Stable(h0, f, Ref(s))
  }

  /** A walk that ends with a result passed no set whose members would change. */
  lemma DoneMeansNoSetChanged(h0: Heap, f: Leaf -> Value, base: Id, h: Heap, next: Id, memo: map<Id, Value>,
                              v: Value, r: Value)
    requires Finish(h0, f, base, h, next, memo, v, r) && SetsStable(h0, f, v)
    ensures !ChangesASet(h0, f, v)
  {
    forall s, l | s in h0 && h0[s].kind.SetOf? && Within(h0, v, s) && LeafWithin(h0, Ref(s), l) ensures f(l) == Leaf(l) {
      WalkedAll(h0, f, base, h, next, memo, v, r, s);
      KeptMeansUnchanged(h0, f, base, h, next, memo, v, r, s, l);
    }
  }

  /** The whole operation. Existing containers are never touched; the walk ends on every value, cyclic ones too. */
  method SubstituteLeaves(heap: Heap, next: Id, v: Value, f: Leaf -> Value) returns (r: Outcome, heap': Heap)
    requires ClosedHeap(heap) && InHeap(heap, v) && TransformInHeap(heap, f)
    requires forall id :: id in heap ==> id < next
    ensures HeapGrows(heap, heap')
    ensures r.RefusedSet? ==> ChangesASet(heap, f, v)
    ensures SetsStable(heap, f, v) ==> (r.RefusedSet? <==> ChangesASet(heap, f, v))
    ensures r.Done? ==> (IsSubstituted(heap, f, v, heap', r.value) <==> Stable(heap, f, v))
    ensures r.Done? ==> (r.value == v <==> !Changes(heap, f, v))
  {
    var walk := new SubstituteWalk(heap, next, f);
    r := walk.Substitute(v, {});
    if r.RefusedSet? { return r, heap; }
    heap' := walk.heap;
    SubstitutedIff(heap, f, next, heap', walk.next, walk.memo, v, r.value);
    SameValueIff(heap, f, next, heap', walk.next, walk.memo, v, r.value);
    if SetsStable(heap, f, v) {
      DoneMeansNoSetChanged(heap, f, next, heap', walk.next, walk.memo, v, r.value);
    }
  }

  lemma AcyclicIsStable(h0: Heap, f: Leaf -> Value, v: Value)
    requires Acyclic(EdgesOf(h0))
    ensures Stable(h0, f, v)
  {
  }
}
