/** Parameter values as the engine walks them: containers with identity, which may share parts or reach themselves. */
module ValueGraph {
  import opened Reachability

  type Id = nat

  /** `Data` is a string, a number, a boolean or none; `Envelope` is a reference standing for a held value, a
      dictionary that every walk treats as a leaf; `Object` is anything else that is not a container. Two leaves are
      equal when they are the same object: texts that read alike may be two. */
  datatype Leaf =
    | Data(identity: nat, text: string)
    | Envelope(identity: nat, key: string)
    | Object(identity: nat)

  datatype Value = Leaf(leaf: Leaf) | Ref(id: Id)

  datatype Key = JsonKey(text: string) | OtherKey(identity: nat)

  datatype Kind = ListOf | TupleOf | SetOf | DictOf(keys: seq<Key>)

  datatype Container = Container(kind: Kind, children: seq<Value>)

  type Heap = map<Id, Container>

  ghost predicate InHeap(h: Heap, v: Value) {
    v.Ref? ==> v.id in h
  }

  /** Every container a container refers to is there. */
  ghost predicate ClosedHeap(h: Heap) {
    forall id, k :: id in h && 0 <= k < |h[id].children| ==> InHeap(h, h[id].children[k])
  }

  ghost function EdgesOf(h: Heap): set<(Id, Id)> {
    set a, b | a in h && b in h && Ref(b) in h[a].children :: (a, b)
  }

  /** Container `b` is `v` or inside it. */
  ghost predicate Within(h: Heap, v: Value, b: Id) {
    v.Ref? && Reach(EdgesOf(h), v.id, b)
  }

  /** Leaf `l` is `v` or inside it. */
  ghost predicate LeafWithin(h: Heap, v: Value, l: Leaf) {
    v == Leaf(l) || exists b :: b in h && Within(h, v, b) && Leaf(l) in h[b].children
  }

  lemma ChildEdge(h: Heap, a: Id, k: nat)
    requires ClosedHeap(h) && a in h && k < |h[a].children| && h[a].children[k].Ref?
    ensures (a, h[a].children[k].id) in EdgesOf(h)
  {
    assert InHeap(h, h[a].children[k]);
    assert h[a].children[k] in h[a].children;
  }

  lemma EdgeChild(h: Heap, a: Id, b: Id) returns (k: nat)
    requires (a, b) in EdgesOf(h)
    ensures a in h && b in h && k < |h[a].children| && h[a].children[k] == Ref(b)
  {
    k :| 0 <= k < |h[a].children| && h[a].children[k] == Ref(b);
  }

  /** What is inside a child is inside the container. */
  lemma WithinChild(h: Heap, a: Id, k: nat, b: Id)
    requires ClosedHeap(h) && a in h && k < |h[a].children| && Within(h, h[a].children[k], b)
    ensures Within(h, Ref(a), b)
  {
    ChildEdge(h, a, k);
    ReachEdge(EdgesOf(h), a, h[a].children[k].id);
    ReachTrans(EdgesOf(h), a, h[a].children[k].id, b);
  }

  lemma LeafWithinChild(h: Heap, a: Id, k: nat, l: Leaf)
    requires ClosedHeap(h) && a in h && k < |h[a].children| && LeafWithin(h, h[a].children[k], l)
    ensures LeafWithin(h, Ref(a), l)
  {
    if h[a].children[k] == Leaf(l) {
      ReachRefl(EdgesOf(h), a);
      assert Within(h, Ref(a), a);
    } else {
      var b :| b in h && Within(h, h[a].children[k], b) && Leaf(l) in h[b].children;
      WithinChild(h, a, k, b);
    }
  }

  /** And what is inside a container is the container itself or inside one of its children. */
  lemma WithinCases(h: Heap, a: Id, b: Id)
    requires ClosedHeap(h) && a in h && Within(h, Ref(a), b)
    ensures b == a || exists k :: 0 <= k < |h[a].children| && Within(h, h[a].children[k], b)
  {
    if b != a {
      ReachCases(EdgesOf(h), a, b);
      var c :| (a, c) in EdgesOf(h) && Reach(EdgesOf(h), c, b);
      var k := EdgeChild(h, a, c);
      assert Within(h, h[a].children[k], b);
    }
  }

  // ----- Is this value already data?

  predicate PlainLeaf(l: Leaf) {
    l.Data? || l.Envelope?
  }

  predicate PlainKeys(kind: Kind) {
    kind.DictOf? ==> forall k :: k in kind.keys ==> k.JsonKey?
  }

  /** The container on its own could be written as JSON. */
  ghost predicate PlainShape(c: Container) {
    && !c.kind.SetOf? && PlainKeys(c.kind)
    && forall k :: 0 <= k < |c.children| && c.children[k].Leaf? ==> PlainLeaf(c.children[k].leaf)
  }

  /** Everything inside could be written as JSON, and nothing inside contains itself. */
  ghost predicate Plain(h: Heap, v: Value) {
    match v
    case Leaf(l) => PlainLeaf(l)
    case Ref(a) => forall b :: Reach(EdgesOf(h), a, b) ==> b in h && PlainShape(h[b]) && !ReachPlus(EdgesOf(h), b, b)
  }

  lemma PlainChildren(h: Heap, a: Id)
    requires ClosedHeap(h) && a in h
    requires !h[a].kind.SetOf? && PlainBefore(h, a, |h[a].children|)
    ensures Plain(h, Ref(a))
  {
    forall b | Reach(EdgesOf(h), a, b) ensures b in h && PlainShape(h[b]) && !ReachPlus(EdgesOf(h), b, b) {
      WithinCases(h, a, b);
      if b == a && ReachPlus(EdgesOf(h), a, a) { CycleSpoilsChild(h, a); }
    }
  }

  lemma CycleSpoilsChild(h: Heap, a: Id)
    requires a in h && ReachPlus(EdgesOf(h), a, a)
    ensures exists k :: 0 <= k < |h[a].children| && !Plain(h, h[a].children[k])
  {
    var c :| (a, c) in EdgesOf(h) && Reach(EdgesOf(h), c, a);
    var k := EdgeChild(h, a, c);
    assert !Plain(h, h[a].children[k]);
  }

  lemma OnCycleNotPlain(h: Heap, a: Id)
    requires ReachPlus(EdgesOf(h), a, a)
    ensures !Plain(h, Ref(a))
  {
    ReachRefl(EdgesOf(h), a);
  }

  lemma ChildInHeap(h: Heap, a: Id, k: nat)
    requires ClosedHeap(h) && a in h && k < |h[a].children|
    ensures InHeap(h, h[a].children[k])
  {
  }

  lemma NotPlainChild(h: Heap, a: Id, k: nat)
    requires ClosedHeap(h) && a in h && k < |h[a].children| && !Plain(h, h[a].children[k])
    ensures !Plain(h, Ref(a))
  {
    ReachRefl(EdgesOf(h), a);
    if h[a].children[k].Ref? {
      var c := h[a].children[k].id;
      var b :| Reach(EdgesOf(h), c, b) && !(b in h && PlainShape(h[b]) && !ReachPlus(EdgesOf(h), b, b));
      WithinChild(h, a, k, b);
    }
  }

  lemma NotPlainSet(h: Heap, a: Id)
    requires a in h && h[a].kind.SetOf?
    ensures !Plain(h, Ref(a))
  {
    ReachRefl(EdgesOf(h), a);
  }

  lemma NotPlainKeys(h: Heap, a: Id)
    requires a in h && !PlainKeys(h[a].kind)
    ensures !Plain(h, Ref(a))
  {
    ReachRefl(EdgesOf(h), a);
  }

  /** `open` holds the containers being walked. They are seeded with false; every other answer is right. */
  ghost predicate MemoRight(h: Heap, memo: map<Id, bool>, open: set<Id>) {
    && memo.Keys <= h.Keys && open <= memo.Keys
    && forall id :: id in memo ==> memo[id] == (id !in open && Plain(h, Ref(id)))
  }

  /** Every container being walked contains `v`. */
  ghost predicate OpenReaches(h: Heap, open: set<Id>, v: Value) {
    v.Ref? ==> forall s :: s in open ==> ReachPlus(EdgesOf(h), s, v.id)
  }

  /** The container's shape is plain and so are its first `k` children. */
  ghost predicate PlainBefore(h: Heap, a: Id, k: nat)
    requires a in h && k <= |h[a].children|
  {
    PlainKeys(h[a].kind) && forall j :: 0 <= j < k ==> Plain(h, h[a].children[j])
  }

  lemma LeafIsPlain(h: Heap, l: Leaf)
    ensures Plain(h, Leaf(l)) == PlainLeaf(l)
  {
  }

  lemma PlainFromKeys(h: Heap, a: Id)
    requires a in h && PlainKeys(h[a].kind)
    ensures PlainBefore(h, a, 0)
  {
  }

  lemma PlainUpTo(h: Heap, a: Id, k: nat)
    requires a in h && k < |h[a].children| && PlainBefore(h, a, k) && Plain(h, h[a].children[k])
    ensures PlainBefore(h, a, k + 1)
  {
  }

  /** A remembered answer is right even for a container still being walked: it contains itself. */
  lemma MemoAnswers(h: Heap, memo: map<Id, bool>, open: set<Id>, a: Id)
    requires MemoRight(h, memo, open) && a in memo && OpenReaches(h, open, Ref(a))
    ensures memo[a] == Plain(h, Ref(a))
  {
    if a in open {
      assert ReachPlus(EdgesOf(h), a, a);
      OnCycleNotPlain(h, a);
    }
  }

  lemma MemoSeeded(h: Heap, memo: map<Id, bool>, open: set<Id>, a: Id)
    requires MemoRight(h, memo, open) && a in h && a !in memo
    ensures MemoRight(h, memo[a := false], open + {a})
  {
  }

  lemma MemoClosed(h: Heap, before: map<Id, bool>, memo: map<Id, bool>, open: set<Id>, a: Id, answer: bool)
    requires MemoRight(h, before, open) && a !in before
    requires MemoRight(h, memo, open + {a}) && answer == Plain(h, Ref(a))
    ensures MemoRight(h, memo[a := answer], open)
  {
  }

  lemma OpenReachesChild(h: Heap, open: set<Id>, a: Id, k: nat)
    requires ClosedHeap(h) && a in h && k < |h[a].children| && OpenReaches(h, open, Ref(a))
    ensures OpenReaches(h, open + {a}, h[a].children[k])
  {
    if h[a].children[k].Ref? {
      var c := h[a].children[k].id;
      ChildEdge(h, a, k);
      ReachEdge(EdgesOf(h), a, c);
      forall s | s in open + {a} ensures ReachPlus(EdgesOf(h), s, c) {
        if s != a { PlusThenReach(EdgesOf(h), s, a, c); }
      }
    }
  }

  class PlainDataWalk {
    const heap: Heap
    var memo: map<Id, bool>

    constructor (heap: Heap)
      ensures this.heap == heap && memo == map[]
    {
      this.heap := heap;
      memo := map[];
    }

    method Check(v: Value, ghost open: set<Id>) returns (plain: bool)
      requires ClosedHeap(heap) && InHeap(heap, v) && MemoRight(heap, memo, open)
      requires OpenReaches(heap, open, v)
      modifies this
      ensures plain == Plain(heap, v)
      ensures MemoRight(heap, memo, open) && old(memo).Keys <= memo.Keys
      decreases Left(heap.Keys, memo.Keys)
    {
      hide Plain, ClosedHeap, ReachPlus, MemoRight, OpenReaches, PlainKeys, PlainBefore, Left;
      if v.Leaf? {
        LeafIsPlain(heap, v.leaf);
        return PlainLeaf(v.leaf);
      }
      var c := heap[v.id];
      if c.kind.SetOf? {
        NotPlainSet(heap, v.id);
        return false;
      }
      if v.id in memo {
        MemoAnswers(heap, memo, open, v.id);
        return memo[v.id];
      }
      ghost var before := memo;
      memo := memo[v.id := false];
      MemoSeeded(heap, before, open, v.id);
      Shrinks(heap.Keys, before.Keys, memo.Keys, v.id);
      var result := PlainKeys(c.kind);
      if result { PlainFromKeys(heap, v.id); } else { NotPlainKeys(heap, v.id); }
      var k := 0;
      while result && k < |c.children|
        invariant 0 <= k <= |c.children|
        invariant MemoRight(heap, memo, open + {v.id}) && before.Keys <= memo.Keys
        invariant Left(heap.Keys, memo.Keys) < Left(heap.Keys, before.Keys)
        invariant if result then PlainBefore(heap, v.id, k) else !Plain(heap, v)
        decreases |c.children| - k
      {
        ChildInHeap(heap, v.id, k);
        OpenReachesChild(heap, open, v.id, k);
        ghost var sofar := memo.Keys;
        result := Check(c.children[k], open + {v.id});
        NoMoreLeft(heap.Keys, sofar, memo.Keys);
        if result { PlainUpTo(heap, v.id, k); } else { NotPlainChild(heap, v.id, k); }
        k := k + 1;
      }
      if result { PlainChildren(heap, v.id); }
      MemoClosed(heap, before, memo, open, v.id, result);
      memo := memo[v.id := result];
      plain := result;
    }
  }


  /** Exact on every value, shared or cyclic: the seeded answers and the early stop never show. */
  /** Spelled out: every leaf inside is a scalar or a reference, no container inside is a set, a dictionary with another
      key than JSON has, or contains itself. */
  lemma PlainIff(h: Heap, v: Value)
    requires ClosedHeap(h) && InHeap(h, v)
    ensures Plain(h, v) <==>
      && (forall l :: LeafWithin(h, v, l) ==> l.Data? || l.Envelope?)
      && forall b :: Within(h, v, b) ==>
           b in h && !h[b].kind.SetOf? && !ReachPlus(EdgesOf(h), b, b)
           && (h[b].kind.DictOf? ==> forall k :: k in h[b].kind.keys ==> k.JsonKey?)
  {
    if Plain(h, v) {
      forall l | LeafWithin(h, v, l) ensures l.Data? || l.Envelope? {
        if v.Ref? {
          var b :| b in h && Within(h, v, b) && Leaf(l) in h[b].children;
          var k :| 0 <= k < |h[b].children| && h[b].children[k] == Leaf(l);
        }
      }
    }
    if (forall l :: LeafWithin(h, v, l) ==> l.Data? || l.Envelope?)
       && forall b :: Within(h, v, b) ==>
            b in h && !h[b].kind.SetOf? && !ReachPlus(EdgesOf(h), b, b)
            && (h[b].kind.DictOf? ==> forall k :: k in h[b].kind.keys ==> k.JsonKey?)
    {
      if v.Leaf? { assert LeafWithin(h, v, v.leaf); }
      forall b, k | Within(h, v, b) && b in h && 0 <= k < |h[b].children| && h[b].children[k].Leaf?
        ensures PlainLeaf(h[b].children[k].leaf)
      {
        assert LeafWithin(h, v, h[b].children[k].leaf);
      }
      if v.Ref? {
        forall b | Reach(EdgesOf(h), v.id, b) ensures b in h && PlainShape(h[b]) && !ReachPlus(EdgesOf(h), b, b) {
          assert Within(h, v, b);
        }
      }
    }
  }

  method IsPlainData(heap: Heap, v: Value) returns (plain: bool)
    requires ClosedHeap(heap) && InHeap(heap, v)
    ensures plain == Plain(heap, v)
  {
    var walk := new PlainDataWalk(heap);
    plain := walk.Check(v, {});
  }

  // ----- Which kept leaves are in here?

  /** What is collected for a leaf: an envelope's key, or the leaf itself. */
  datatype Found = TheKey(key: string) | TheLeaf(leaf: Leaf)

  function FoundFor(l: Leaf): Found {
    if l.Envelope? then TheKey(l.key) else TheLeaf(l)
  }

  ghost predicate CoveredValue(keep: Leaf -> bool, found: set<Found>, seen: set<Id>, v: Value) {
    match v
    case Leaf(l) => keep(l) ==> FoundFor(l) in found
    case Ref(c) => c in seen
  }

  /** The kept leaves of the containers `done` are found, and what those refer to is seen. */
  ghost predicate Covered(h: Heap, keep: Leaf -> bool, found: set<Found>, seen: set<Id>, done: set<Id>) {
    forall a, k :: a in done && a in h && 0 <= k < |h[a].children| ==> CoveredValue(keep, found, seen, h[a].children[k])
  }

  /** Nothing is found that is not a kept leaf inside `root`. */
  ghost predicate OnlyFrom(h: Heap, keep: Leaf -> bool, root: Value, found: set<Found>, seen: set<Id>) {
    && seen <= h.Keys
    && forall x :: x in found ==> exists l :: keep(l) && FoundFor(l) == x && LeafWithin(h, root, l)
  }

  ghost predicate LeavesWithin(h: Heap, v: Value, root: Value) {
    forall l :: LeafWithin(h, v, l) ==> LeafWithin(h, root, l)
  }

  lemma ChildLeavesWithin(h: Heap, a: Id, k: nat, root: Value)
    requires ClosedHeap(h) && a in h && k < |h[a].children| && LeavesWithin(h, Ref(a), root)
    ensures LeavesWithin(h, h[a].children[k], root)
  {
    forall l | LeafWithin(h, h[a].children[k], l) ensures LeafWithin(h, root, l) {
      LeafWithinChild(h, a, k, l);
    }
  }

  lemma CoveredNone(h: Heap, keep: Leaf -> bool, found: set<Found>, seen: set<Id>)
    ensures forall none: set<Id>, more: set<Found> :: none == {} ==> Covered(h, keep, more, seen, none)
  {
  }

  lemma FoundMore(h: Heap, keep: Leaf -> bool, l: Leaf, root: Value, found: set<Found>, seen: set<Id>)
    requires OnlyFrom(h, keep, root, found, seen) && keep(l) && LeavesWithin(h, Leaf(l), root)
    ensures OnlyFrom(h, keep, root, found + {FoundFor(l)}, seen)
  {
    assert LeafWithin(h, Leaf(l), l);
  }

  /** A container just marked seen has nothing covered yet. */
  lemma SeenMore(h: Heap, keep: Leaf -> bool, root: Value, found: set<Found>, seen: set<Id>, a: Id)
    requires OnlyFrom(h, keep, root, found, seen) && a in h
    ensures OnlyFrom(h, keep, root, found, seen + {a})
    ensures Covered(h, keep, found, seen + {a}, (seen + {a}) - seen - {a})
  {
  }

  lemma CoveredTogether(h: Heap, keep: Leaf -> bool, found0: set<Found>, seen0: set<Id>, done0: set<Id>,
                        found1: set<Found>, seen1: set<Id>, done1: set<Id>)
    requires Covered(h, keep, found0, seen0, done0) && Covered(h, keep, found1, seen1, done1)
    requires found0 <= found1 && seen0 <= seen1
    ensures Covered(h, keep, found1, seen1, done0 + done1)
  {
    forall a, k | a in done0 && a in h && 0 <= k < |h[a].children|
      ensures CoveredValue(keep, found1, seen1, h[a].children[k])
    {
      assert CoveredValue(keep, found0, seen0, h[a].children[k]);
    }
  }

  lemma CoveredNow(h: Heap, keep: Leaf -> bool, found: set<Found>, seen: set<Id>, done: set<Id>, a: Id)
    requires Covered(h, keep, found, seen, done) && a in h
    requires forall k :: 0 <= k < |h[a].children| ==> CoveredValue(keep, found, seen, h[a].children[k])
    ensures Covered(h, keep, found, seen, done + {a})
  {
  }

  class LeafWalk {
    const heap: Heap
    const keep: Leaf -> bool
    var found: set<Found>
    var seen: set<Id>

    constructor (heap: Heap, keep: Leaf -> bool)
      ensures this.heap == heap && this.keep == keep && found == {} && seen == {}
    {
      this.heap, this.keep := heap, keep;
      found, seen := {}, {};
    }

    method Collect(v: Value, ghost root: Value)
      requires ClosedHeap(heap) && InHeap(heap, v) && OnlyFrom(heap, keep, root, found, seen)
      requires LeavesWithin(heap, v, root)
      modifies this
      ensures OnlyFrom(heap, keep, root, found, seen)
      ensures CoveredValue(keep, found, seen, v) && Covered(heap, keep, found, seen, seen - old(seen))
      ensures old(seen) <= seen && old(found) <= found
      decreases Left(heap.Keys, seen)
    {
      hide ClosedHeap, Covered, OnlyFrom, LeavesWithin, Left;
      CoveredNone(heap, keep, found, seen);
      if v.Leaf? {
        if keep(v.leaf) {
          FoundMore(heap, keep, v.leaf, root, found, seen);
          found := found + {FoundFor(v.leaf)};
        }
        return;
      }
      if v.id in seen { return; }
      ghost var before, found0 := seen, found;
      seen := seen + {v.id};
      SeenMore(heap, keep, root, found, before, v.id);
      Shrinks(heap.Keys, before, seen, v.id);
      var children := heap[v.id].children;
      for k := 0 to |children|
        invariant OnlyFrom(heap, keep, root, found, seen)
        invariant before + {v.id} <= seen && found0 <= found
        invariant Left(heap.Keys, seen) < Left(heap.Keys, before)
        invariant forall j :: 0 <= j < k ==> CoveredValue(keep, found, seen, children[j])
        invariant Covered(heap, keep, found, seen, seen - before - {v.id})
      {
        ChildInHeap(heap, v.id, k);
        ChildLeavesWithin(heap, v.id, k, root);
        ghost var seen1, found1 := seen, found;
        Collect(children[k], root);
        NoMoreLeft(heap.Keys, seen1, seen);
        CoveredTogether(heap, keep, found1, seen1, seen1 - before - {v.id}, found, seen, seen - seen1);
        assert (seen1 - before - {v.id}) + (seen - seen1) == seen - before - {v.id};
      }
      CoveredNow(heap, keep, found, seen, seen - before - {v.id}, v.id);
      assert (seen - before - {v.id}) + {v.id} == seen - before;
    }
  }

  /** Once every container seen is covered, everything inside a seen container is. */
  lemma CoverReaches(h: Heap, keep: Leaf -> bool, found: set<Found>, seen: set<Id>, a: Id, b: Id)
    requires ClosedHeap(h) && a in seen && Reach(EdgesOf(h), a, b) && Covered(h, keep, found, seen, seen)
    ensures b in seen
  {
    forall x, y | x in seen && (x, y) in EdgesOf(h) ensures y in seen {
      var k := EdgeChild(h, x, y);
      assert CoveredValue(keep, found, seen, h[x].children[k]);
    }
    ReachStaysIn(EdgesOf(h), seen, a, b);
  }

  /** Exactly the kept leaves inside the value, however it shares parts or reaches itself. */
  method CollectLeaves(heap: Heap, v: Value, keep: Leaf -> bool) returns (found: set<Found>)
    requires ClosedHeap(heap) && InHeap(heap, v)
    ensures forall x :: x in found <==> exists l :: keep(l) && FoundFor(l) == x && LeafWithin(heap, v, l)
    ensures forall l :: TheLeaf(l) in found <==> !l.Envelope? && keep(l) && LeafWithin(heap, v, l)
    ensures forall key :: TheKey(key) in found <==> exists l: Leaf :: l.Envelope? && l.key == key && keep(l) && LeafWithin(heap, v, l)
  {
    var walk := new LeafWalk(heap, keep);
    walk.Collect(v, v);
    found := walk.found;
    assert walk.seen - {} == walk.seen;
    forall l | keep(l) && LeafWithin(heap, v, l) ensures FoundFor(l) in found {
      if v != Leaf(l) {
        var b :| b in heap && Within(heap, v, b) && Leaf(l) in heap[b].children;
        CoverReaches(heap, keep, found, walk.seen, v.id, b);
        var k :| 0 <= k < |heap[b].children| && heap[b].children[k] == Leaf(l);
        assert CoveredValue(keep, found, walk.seen, heap[b].children[k]);
      }
    }
  }
}
