/** Substituting variables in a value: what is built, and exactly when that is the value with every text resolved. */
module VariableResolution {
  import opened Options
  import opened Reachability
  import opened VariableTemplates

  /** What resolving does to a text. */
  type Rule = string -> string

  predicate Alters(rule: Rule, t: string) {
    rule(t) != t
  }

  /** Some text inside `v` that is reached without going through `avoid` is altered. */
  ghost predicate Altered(h: Heap, rule: Rule, avoid: set<Id>, v: Value) {
    Holds(h, t => Alters(rule, t), avoid, v)
  }

  /** Some text inside `v` that is reached without going through `avoid` does not come back as the very same string. */
  ghost predicate Replaced(h: Heap, keeps: string -> bool, avoid: set<Id>, v: Value) {
    Holds(h, t => !keeps(t), avoid, v)
  }

  // ----- Copies

  /** One child of a container and what stands in its place in a copy: a resolved text; a copy; or the container itself,
      when nothing in it is altered or the walk was inside it, so that it reaches back to the container copied. */
  ghost predicate ChildResolved(h0: Heap, rule: Rule, origin: map<Id, Id>, a: Id, was: Value, now: Value) {
    match was
    case Text(t) => now == Text(rule(t))
    case Other(_) => now == was
    case Ref(c) =>
      || (now == was && (Reach(EdgesOf(h0), c, a) || !Altered(h0, rule, {}, was)))
      || (now.Ref? && now.id in origin && origin[now.id] == c)
  }

  ghost predicate IsCopy(h0: Heap, rule: Rule, h: Heap, origin: map<Id, Id>, n: Id)
    requires n in origin
  {
    && n in h && n !in h0 && origin[n] in h0 && h[n].kind == h0[origin[n]].kind
    && |h[n].children| == |h0[origin[n]].children|
    && forall k :: 0 <= k < |h[n].children| ==>
         ChildResolved(h0, rule, origin, origin[n], h0[origin[n]].children[k], h[n].children[k])
         && (h[n].children[k].Ref? && h[n].children[k].id in origin ==> h[n].children[k].id < n)
  }

  /** The heap is the old one with copies added; a copy refers only to older copies. */
  ghost predicate Copies(h0: Heap, rule: Rule, h: Heap, origin: map<Id, Id>, next: Id) {
    && (forall id :: id in h0 ==> id in h && h[id] == h0[id] && id < next)
    && (forall n :: n in origin ==> n < next && IsCopy(h0, rule, h, origin, n))
  }

  lemma CopyStays(h0: Heap, rule: Rule, h: Heap, origin: map<Id, Id>, h': Heap, origin': map<Id, Id>, n: Id)
    requires n in origin && IsCopy(h0, rule, h, origin, n)
    requires forall id :: id in h ==> id in h' && h'[id] == h[id]
    requires forall m :: m in origin ==> m in origin' && origin'[m] == origin[m]
    requires forall m :: m in origin' && m !in origin ==> m > n && m !in h
    requires ClosedHeap(h)
    ensures IsCopy(h0, rule, h', origin', n)
  {
    forall k | 0 <= k < |h'[n].children|
      ensures ChildResolved(h0, rule, origin', origin'[n], h0[origin'[n]].children[k], h'[n].children[k])
      ensures h'[n].children[k].Ref? && h'[n].children[k].id in origin' ==> h'[n].children[k].id < n
    {
      assert ChildResolved(h0, rule, origin, origin[n], h0[origin[n]].children[k], h[n].children[k]);
      assert InHeap(h, h[n].children[k]);
    }
  }

  lemma CopyAdded(h0: Heap, rule: Rule, h: Heap, origin: map<Id, Id>, next: Id, a: Id, c: Container)
    requires Copies(h0, rule, h, origin, next) && ClosedHeap(h) && next !in h && a in h0
    requires c.kind == h0[a].kind && |c.children| == |h0[a].children|
    requires forall k :: 0 <= k < |c.children| ==>
      ChildResolved(h0, rule, origin, a, h0[a].children[k], c.children[k]) && InHeap(h, c.children[k])
    ensures Copies(h0, rule, h[next := c], origin[next := a], next + 1) && ClosedHeap(h[next := c])
  {
    var h', origin' := h[next := c], origin[next := a];
    forall n | n in origin' ensures n < next + 1 && IsCopy(h0, rule, h', origin', n) {
      if n == next {
        forall k | 0 <= k < |c.children|
          ensures ChildResolved(h0, rule, origin', a, h0[a].children[k], c.children[k])
          ensures c.children[k].Ref? && c.children[k].id in origin' ==> c.children[k].id < next
        {
          assert InHeap(h, c.children[k]);
        }
      } else {
        CopyStays(h0, rule, h, origin, h', origin', n);
      }
    }
    forall id, k | id in h' && 0 <= k < |h'[id].children| ensures InHeap(h', h'[id].children[k]) {
      if id != next { assert InHeap(h, h[id].children[k]); }
    }
  }

  lemma WayRound(h: Heap, rule: Rule, avoid: set<Id>, p: seq<Id>)
    requires IsPath(EdgesOf(h), p) && HoldsText(h, t => Alters(rule, t), p[|p| - 1])
    requires forall i :: 0 <= i < |p| ==> p[i] !in avoid
    ensures Altered(h, rule, avoid, Ref(p[0]))
  {
    assert IsPath(Avoiding(EdgesOf(h), avoid), p);
    assert Reach(Avoiding(EdgesOf(h), avoid), p[0], p[|p| - 1]);
  }

  /** What is altered somewhere but not on any way round `avoid` leads to `avoid`. */
  lemma LeadsTo(h: Heap, rule: Rule, avoid: set<Id>, c: Id) returns (x: Id)
    requires Altered(h, rule, {}, Ref(c)) && !Altered(h, rule, avoid, Ref(c))
    ensures x in avoid && Reach(EdgesOf(h), c, x)
  {
    var es := EdgesOf(h);
    AvoidingNone(es);
    var b :| Reach(es, c, b) && HoldsText(h, t => Alters(rule, t), b);
    var p: seq<Id> :| IsPath(es, p) && p[0] == c && p[|p| - 1] == b;
    if forall i :: 0 <= i < |p| ==> p[i] !in avoid { WayRound(h, rule, avoid, p); }
    var i :| 0 <= i < |p| && p[i] in avoid;
    x := p[i];
    var q := p[..i + 1];
    assert IsPath(es, q) && q[0] == c && q[|q| - 1] == x;
  }

  /** What came back for a child may stand in a copy of its container. */
  lemma ChildIs(h: Heap, rule: Rule, origin: map<Id, Id>, avoid: set<Id>, a: Id, was: Value, now: Value, same: bool)
    requires forall x :: x in avoid ==> Reach(EdgesOf(h), x, a)
    requires same ==> now == was && !Altered(h, rule, avoid, was)
    requires was.Text? ==> now == Text(rule(was.text))
    requires was.Other? ==> now == was
    requires was.Ref? && !same ==> now.Ref? && now.id in origin && origin[now.id] == was.id
    ensures ChildResolved(h, rule, origin, a, was, now)
  {
    hide Holds;
    if was.Ref? && same && Altered(h, rule, {}, was) {
      var x := LeadsTo(h, rule, avoid, was.id);
      ReachTrans(EdgesOf(h), was.id, x, a);
    }
  }

  lemma ChildKept(h: Heap, rule: Rule, origin: map<Id, Id>, origin': map<Id, Id>, a: Id, was: Value, now: Value)
    requires ChildResolved(h, rule, origin, a, was, now)
    requires forall n :: n in origin ==> n in origin' && origin'[n] == origin[n]
    ensures ChildResolved(h, rule, origin', a, was, now)
  {
  }

  lemma AlteredIsReplaced(h: Heap, rule: Rule, keeps: string -> bool, avoid: set<Id>, v: Value)
    requires Altered(h, rule, avoid, v) && forall t :: keeps(t) ==> !Alters(rule, t)
    ensures Replaced(h, keeps, avoid, v)
  {
    if v.Ref? {
      var b :| Reach(Avoiding(EdgesOf(h), avoid), v.id, b) && HoldsText(h, t => Alters(rule, t), b);
      assert HoldsText(h, t => !keeps(t), b);
    }
  }

  lemma ReplacedIff(h: Heap, keeps: string -> bool, avoid: set<Id>, a: Id)
    requires ClosedHeap(h) && a in h && a !in avoid
    ensures Replaced(h, keeps, avoid, Ref(a)) <==>
      exists k :: 0 <= k < |h[a].children| && Replaced(h, keeps, avoid + {a}, h[a].children[k])
  {
    hide Holds;
    if Replaced(h, keeps, avoid, Ref(a)) {
      var k := HoldsChild(h, t => !keeps(t), avoid, a);
      assert Replaced(h, keeps, avoid + {a}, h[a].children[k]);
    }
    if k :| 0 <= k < |h[a].children| && Replaced(h, keeps, avoid + {a}, h[a].children[k]) {
      ChildHolds(h, t => !keeps(t), avoid, a, k);
    }
  }

  /** What reaches a container reaches its children. */
  lemma ReachesChild(h: Heap, active: set<Id>, a: Id, k: nat)
    requires ClosedHeap(h) && a in h && k < |h[a].children|
    requires forall x :: x in active ==> Reach(EdgesOf(h), x, a)
    ensures InHeap(h, h[a].children[k])
    ensures h[a].children[k].Ref? ==> forall x :: x in active ==> Reach(EdgesOf(h), x, h[a].children[k].id)
  {
    if h[a].children[k].Ref? {
      ChildEdge(h, a, k);
      forall x | x in active ensures Reach(EdgesOf(h), x, h[a].children[k].id) {
        ReachStep(EdgesOf(h), x, a, h[a].children[k].id);
      }
    }
  }

  // ----- The walk

  class ResolveWalk {
    ghost const original: Heap
    const rule: Rule
    const keeps: string -> bool
    var heap: Heap
    var next: Id
    var active: set<Id>
    ghost var origin: map<Id, Id>

    /** `keeps` says of which texts the very same string comes back. */
    ghost predicate Valid()
      reads this
    {
      && Copies(original, rule, heap, origin, next) && ClosedHeap(original) && ClosedHeap(heap)
      && (forall id :: id in heap ==> id < next)
      && (forall t :: keeps(t) ==> !Alters(rule, t))
    }

    ghost predicate Grown(heap0: Heap, origin0: map<Id, Id>)
      reads this
    {
      && (forall id :: id in heap0 ==> id in heap && heap[id] == heap0[id])
      && (forall n :: n in origin0 ==> n in origin && origin[n] == origin0[n])
    }

    constructor (h: Heap, next: Id, rule: Rule, keeps: string -> bool)
      requires ClosedHeap(h) && (forall id :: id in h ==> id < next) && forall t :: keeps(t) ==> !Alters(rule, t)
      ensures Valid() && original == h && heap == h && active == {} && this.rule == rule && this.keeps == keeps
    {
      original, this.rule, this.keeps := h, rule, keeps;
      heap, this.next, active, origin := h, next, {}, map[];
    }

    /** The first `k` children have been resolved. */
    ghost predicate Through(a: Id, resolved: seq<Value>, k: nat)
      reads this
      requires a in original && k <= |original[a].children|
    {
      |resolved| == k && forall j :: 0 <= j < k ==>
        InHeap(heap, resolved[j]) && ChildResolved(original, rule, origin, a, original[a].children[j], resolved[j])
    }

    lemma ThroughMore(heap0: Heap, origin0: map<Id, Id>, avoid: set<Id>, a: Id, resolved: seq<Value>, k: nat,
                      r: Value, same: bool)
      requires a in original && k < |original[a].children| && Grown(heap0, origin0) && |resolved| == k
      requires forall j :: 0 <= j < k ==>
        InHeap(heap0, resolved[j]) && ChildResolved(original, rule, origin0, a, original[a].children[j], resolved[j])
      requires forall x :: x in avoid ==> Reach(EdgesOf(original), x, a)
      requires InHeap(heap, r) && forall t :: keeps(t) ==> !Alters(rule, t)
      requires var was := original[a].children[k];
        && (same ==> r == was && !Replaced(original, keeps, avoid, was))
        && (was.Text? ==> r == Text(rule(was.text))) && (was.Other? ==> r == was)
        && (was.Ref? && !same ==> r.Ref? && r.id in origin && origin[r.id] == was.id)
      ensures Through(a, resolved + [r], k + 1)
    {
      hide Holds;
      if same && Altered(original, rule, avoid, original[a].children[k]) {
        AlteredIsReplaced(original, rule, keeps, avoid, original[a].children[k]);
      }
      ChildIs(original, rule, origin, avoid, a, original[a].children[k], r, same);
      forall j | 0 <= j < k ensures ChildResolved(original, rule, origin, a, original[a].children[j], resolved[j]) {
        ChildKept(original, rule, origin0, origin, a, original[a].children[j], resolved[j]);
      }
    }

    /** `same` tells whether the very same value comes back. */
    method Resolve(v: Value) returns (r: Value, same: bool)
      requires Valid() && InHeap(original, v)
      requires v.Ref? ==> forall x :: x in active ==> Reach(EdgesOf(original), x, v.id)
      modifies this
      ensures Valid() && Grown(old(heap), old(origin)) && active == old(active) && InHeap(heap, r)
      ensures same ==> r == v
      ensures same <==> !Replaced(original, keeps, active, v)
      ensures v.Text? ==> r == Text(rule(v.text))
      ensures v.Other? ==> r == v
      ensures v.Ref? && !same ==> r.Ref? && r.id in origin && origin[r.id] == v.id && r.id !in original
      decreases Left(original.Keys, active)
    {
      hide Left, Copies, ClosedHeap;
      if v.Text? { return Text(rule(v.text)), keeps(v.text); }
      if v.Other? { return v, true; }
      OriginalKept(v.id);
      if v.id in active { return v, true; }
      hide Holds, Reach, Through, Replaced;
      ghost var avoid, heap0, origin0 := active, heap, origin;
      active := active + {v.id};
      ReachRefl(EdgesOf(original), v.id);
      Shrinks(original.Keys, avoid, active, v.id);
      var children := heap[v.id].children;
      var resolved := [];
      var allSame := true;
      NotThroughAny(v.id);
      for k := 0 to |children|
        invariant Valid() && Grown(heap0, origin0) && active == avoid + {v.id} && Through(v.id, resolved, k)
        invariant allSame <==> forall j :: 0 <= j < k ==> !Replaced(original, keeps, avoid + {v.id}, children[j])
      {
        ReachesChild(original, active, v.id, k);
        ghost var heap1, origin1 := heap, origin;
        ThroughIs(v.id, resolved, k);
        var r1, same1 := Resolve(children[k]);
        ThroughMore(heap1, origin1, active, v.id, resolved, k, r1, same1);
        resolved := resolved + [r1];
        allSame := allSame && same1;
      }
      ReplacedIff(original, keeps, avoid, v.id);
      active := active - {v.id};
      assert active == avoid;
      if allSame { return v, true; }
      r := Copy(v.id, resolved);
      same := false;
    }

    method Copy(a: Id, children: seq<Value>) returns (r: Value)
      requires Valid() && a in original && Through(a, children, |original[a].children|)
      modifies `heap, `next, `origin
      ensures Valid() && Grown(old(heap), old(origin)) && InHeap(heap, r)
      ensures r.Ref? && r.id in origin && origin[r.id] == a && r.id !in original
    {
      hide ClosedHeap, ChildResolved, IsCopy;
      var copy := Container(heap[a].kind, children);
      CopyAdded(original, rule, heap, origin, next, a, copy);
      heap := heap[next := copy];
      origin := origin[next := a];
      r := Ref(next);
      next := next + 1;
    }

    lemma OriginalKept(id: Id)
      requires Valid() && id in original
      ensures id in heap && heap[id] == original[id]
    {
    }

    lemma NotThroughAny(a: Id)
      requires a in original
      ensures Through(a, [], 0)
    {
    }

    lemma ThroughIs(a: Id, resolved: seq<Value>, k: nat)
      requires a in original && k <= |original[a].children| && Through(a, resolved, k)
      ensures |resolved| == k && forall j :: 0 <= j < k ==>
        InHeap(heap, resolved[j]) && ChildResolved(original, rule, origin, a, original[a].children[j], resolved[j])
    {
    }
  }

  // ----- Ways into a value

  /** What is found by following child positions from `v`. */
  function At(h: Heap, v: Value, p: seq<nat>): Option<Value> {
    if p == [] then Some(v)
    else
      match At(h, v, p[..|p| - 1])
      case Some(Ref(id)) =>
        if id in h && p[|p| - 1] < |h[id].children| then Some(h[id].children[p[|p| - 1]]) else None
      case _ => None
  }

  /** Alike from outside: resolved text for text, containers with the same keys and number of children. */
  ghost predicate SameShape(h0: Heap, rule: Rule, h: Heap, was: Option<Value>, now: Option<Value>) {
    match was
    case None => now.None?
    case Some(Text(t)) => now == Some(Text(rule(t)))
    case Some(Other(o)) => now == was
    case Some(Ref(c)) =>
      && c in h0 && now.Some? && now.value.Ref? && now.value.id in h
      && h[now.value.id].kind == h0[c].kind && |h[now.value.id].children| == |h0[c].children|
  }

  /** Whatever way is followed, resolved text is found where text was, and the same structure around it. */
  ghost predicate ResolvedEverywhere(h0: Heap, rule: Rule, h: Heap, v: Value, r: Value) {
    forall p :: SameShape(h0, rule, h, At(h0, v, p), At(h, r, p))
  }

  /** No container of `v` that can reach itself has an altered text inside it. */
  ghost predicate Stable(h0: Heap, rule: Rule, v: Value) {
    v.Ref? ==> forall c :: c in h0 && Reach(EdgesOf(h0), v.id, c) && ReachPlus(EdgesOf(h0), c, c) ==>
      !Altered(h0, rule, {}, Ref(c))
  }

  lemma {:induction false} AtConcat(h: Heap, v: Value, p: seq<nat>, q: seq<nat>)
    ensures At(h, v, p + q) == match At(h, v, p) case Some(x) => At(h, x, q) case None => None
    decreases |q|
  {
    if q == [] {
      assert p + q == p;
    } else {
      var r := q[..|q| - 1];
      assert (p + q)[..|p + q| - 1] == p + r;
      AtConcat(h, v, p, r);
    }
  }

  lemma AtOne(h: Heap, v: Value, p: seq<nat>, k: nat)
    ensures At(h, v, p + [k]) == match At(h, v, p)
                                 case Some(Ref(id)) => if id in h && k < |h[id].children| then Some(h[id].children[k]) else None
                                 case _ => None
  {
    assert (p + [k])[..|p|] == p;
  }

  lemma {:induction false} AtInHeap(h: Heap, v: Value, p: seq<nat>)
    requires ClosedHeap(h) && InHeap(h, v)
    ensures At(h, v, p).Some? ==> InHeap(h, At(h, v, p).value)
    ensures At(h, v, p).Some? && At(h, v, p).value.Ref? ==> v.Ref? && Reach(EdgesOf(h), v.id, At(h, v, p).value.id)
  {
    if p == [] {
      if v.Ref? { ReachRefl(EdgesOf(h), v.id); }
    } else {
      var q, k := p[..|p| - 1], p[|p| - 1];
      AtInHeap(h, v, q);
      if At(h, v, p).Some? {
        var id := At(h, v, q).value.id;
        assert InHeap(h, h[id].children[k]);
        if h[id].children[k].Ref? {
          ChildEdge(h, id, k);
          ReachStep(EdgesOf(h), v.id, id, h[id].children[k].id);
        }
      }
    }
  }

  // ----- What is found in the result

  /** What came back for the whole value. */
  ghost predicate IsResult(h0: Heap, rule: Rule, origin: map<Id, Id>, v: Value, r: Value) {
    match v
    case Text(t) => r == Text(rule(t))
    case Other(_) => r == v
    case Ref(a) => (r == v && !Altered(h0, rule, {}, v)) || (r.Ref? && r.id in origin && origin[r.id] == a)
  }

  /** A way leads to a copy in the result, which is older the longer the way; or to what it leads to in the value; or
      to that with its text resolved. */
  ghost predicate Follows(rule: Rule, origin: map<Id, Id>, next: Id, n: nat, was: Option<Value>, now: Option<Value>) {
    || now == was
    || (was.Some? && was.value.Text? && now == Some(Text(rule(was.value.text))))
    || (was.Some? && was.value.Ref? && now.Some? && now.value.Ref? && now.value.id in origin
        && origin[now.value.id] == was.value.id && now.value.id + n < next)
  }

  lemma {:induction false} FollowsAt(h0: Heap, rule: Rule, h: Heap, origin: map<Id, Id>, next: Id, v: Value,
                                     r: Value, p: seq<nat>)
    requires Copies(h0, rule, h, origin, next) && ClosedHeap(h0) && InHeap(h0, v) && IsResult(h0, rule, origin, v, r)
    ensures Follows(rule, origin, next, |p|, At(h0, v, p), At(h, r, p))
  {
    hide Altered, Reach;
    if p != [] {
      var q, k := p[..|p| - 1], p[|p| - 1];
      FollowsAt(h0, rule, h, origin, next, v, r, q);
      AtInHeap(h0, v, q);
      if At(h0, v, q).Some? && At(h0, v, q).value.Ref? && At(h, r, q) != At(h0, v, q) {
        var n := At(h, r, q).value.id;
        assert IsCopy(h0, rule, h, origin, n);
        if k < |h[n].children| {
          assert ChildResolved(h0, rule, origin, origin[n], h0[origin[n]].children[k], h[n].children[k]);
        }
      }
    }
  }

  // ----- Stable values are resolved everywhere

  lemma AlteredUp(h: Heap, rule: Rule, a: Id, k: nat)
    requires ClosedHeap(h) && a in h && k < |h[a].children| && Altered(h, rule, {}, h[a].children[k])
    ensures Altered(h, rule, {}, Ref(a))
  {
    var c := h[a].children[k];
    var es := EdgesOf(h);
    AvoidingNone(es);
    if c.Text? {
      ReachRefl(es, a);
      assert HoldsText(h, t => Alters(rule, t), a);
    } else {
      var b :| Reach(es, c.id, b) && HoldsText(h, t => Alters(rule, t), b);
      ChildEdge(h, a, k);
      ReachEdge(es, a, c.id);
      ReachTrans(es, a, c.id, b);
    }
  }

  /** Resolved text for text, and for a container a copy of it or, when nothing in it is altered, itself. */
  ghost predicate Settled(h0: Heap, rule: Rule, origin: map<Id, Id>, was: Option<Value>, now: Option<Value>) {
    match was
    case None => now.None?
    case Some(x) => now.Some? && IsResult(h0, rule, origin, x, now.value)
  }

  lemma OnCycle(h: Heap, a: Id, k: nat)
    requires ClosedHeap(h) && a in h && k < |h[a].children| && h[a].children[k].Ref?
    requires Reach(EdgesOf(h), h[a].children[k].id, a)
    ensures ReachPlus(EdgesOf(h), h[a].children[k].id, h[a].children[k].id)
  {
    ChildEdge(h, a, k);
    ReachStep(EdgesOf(h), h[a].children[k].id, a, h[a].children[k].id);
  }

  /** One step further into a copy. */
  lemma CopyStep(h0: Heap, rule: Rule, h: Heap, origin: map<Id, Id>, n: Id, k: nat, v: Value)
    requires n in origin && IsCopy(h0, rule, h, origin, n) && ClosedHeap(h0) && k < |h[n].children|
    requires Stable(h0, rule, v) && v.Ref? && Reach(EdgesOf(h0), v.id, origin[n])
    ensures IsResult(h0, rule, origin, h0[origin[n]].children[k], h[n].children[k])
  {
    hide Holds;
    var a := origin[n];
    var was := h0[a].children[k];
    assert ChildResolved(h0, rule, origin, a, was, h[n].children[k]);
    if was.Ref? && Reach(EdgesOf(h0), was.id, a) {
      OnCycle(h0, a, k);
      ChildEdge(h0, a, k);
      ReachStep(EdgesOf(h0), v.id, a, was.id);
    }
  }

  /** One step further into a container nothing in which is altered. */
  lemma UnalteredStep(h0: Heap, rule: Rule, origin: map<Id, Id>, a: Id, k: nat)
    requires ClosedHeap(h0) && a in h0 && k < |h0[a].children| && !Altered(h0, rule, {}, Ref(a))
    ensures IsResult(h0, rule, origin, h0[a].children[k], h0[a].children[k])
  {
    if Altered(h0, rule, {}, h0[a].children[k]) { AlteredUp(h0, rule, a, k); }
  }

  lemma {:induction false} SettledAt(h0: Heap, rule: Rule, h: Heap, origin: map<Id, Id>, next: Id, v: Value,
                                     r: Value, p: seq<nat>)
    requires Copies(h0, rule, h, origin, next) && ClosedHeap(h0) && InHeap(h0, v) && IsResult(h0, rule, origin, v, r)
    requires Stable(h0, rule, v)
    ensures Settled(h0, rule, origin, At(h0, v, p), At(h, r, p))
  {
    hide Altered, Reach, Stable;
    if p != [] {
      var q, k := p[..|p| - 1], p[|p| - 1];
      SettledAt(h0, rule, h, origin, next, v, r, q);
      AtInHeap(h0, v, q);
      if At(h0, v, q).Some? && At(h0, v, q).value.Ref? {
        var a, y := At(h0, v, q).value.id, At(h, r, q).value;
        if k < |h0[a].children| {
          if y.id in origin && origin[y.id] == a {
            assert IsCopy(h0, rule, h, origin, y.id);
            CopyStep(h0, rule, h, origin, y.id, k, v);
          } else {
            UnalteredStep(h0, rule, origin, a, k);
          }
        } else if y.id in origin {
          assert IsCopy(h0, rule, h, origin, y.id);
        }
      }
    }
  }

  lemma SettledShape(h0: Heap, rule: Rule, h: Heap, origin: map<Id, Id>, next: Id, was: Option<Value>,
                     now: Option<Value>)
    requires Copies(h0, rule, h, origin, next) && (was.Some? ==> InHeap(h0, was.value)) && Settled(h0, rule, origin, was, now)
    ensures SameShape(h0, rule, h, was, now)
  {
    hide Altered;
    if was.Some? && was.value.Ref? && now.value.id in origin {
      assert IsCopy(h0, rule, h, origin, now.value.id);
    }
  }

  lemma StableIsResolved(h0: Heap, rule: Rule, h: Heap, origin: map<Id, Id>, next: Id, v: Value, r: Value)
    requires Copies(h0, rule, h, origin, next) && ClosedHeap(h0) && InHeap(h0, v) && IsResult(h0, rule, origin, v, r)
    requires Stable(h0, rule, v)
    ensures ResolvedEverywhere(h0, rule, h, v, r)
  {
    hide Copies, Stable, IsResult, SameShape, At, ClosedHeap;
    forall p ensures SameShape(h0, rule, h, At(h0, v, p), At(h, r, p)) {
      SettledAt(h0, rule, h, origin, next, v, r, p);
      AtInHeap(h0, v, p);
      SettledShape(h0, rule, h, origin, next, At(h0, v, p), At(h, r, p));
    }
  }

  // ----- Others are not

  lemma {:induction false} WayAlong(h: Heap, ids: seq<Id>) returns (p: seq<nat>)
    requires IsPath(EdgesOf(h), ids)
    ensures |p| == |ids| - 1 && At(h, Ref(ids[0]), p) == Some(Ref(ids[|ids| - 1]))
  {
    if |ids| == 1 {
      p := [];
    } else {
      var front := ids[..|ids| - 1];
      assert IsPath(EdgesOf(h), front);
      var q := WayAlong(h, front);
      assert (ids[|ids| - 2], ids[|ids| - 1]) in EdgesOf(h);
      var k := EdgeChild(h, ids[|ids| - 2], ids[|ids| - 1]);
      p := q + [k];
      AtOne(h, Ref(ids[0]), q, k);
    }
  }

  lemma WayTo(h: Heap, a: Id, b: Id) returns (p: seq<nat>)
    requires Reach(EdgesOf(h), a, b)
    ensures At(h, Ref(a), p) == Some(Ref(b))
  {
    var ids: seq<Id> :| IsPath(EdgesOf(h), ids) && ids[0] == a && ids[|ids| - 1] == b;
    p := WayAlong(h, ids);
  }

  lemma WayBack(h: Heap, c: Id) returns (p: seq<nat>)
    requires ReachPlus(EdgesOf(h), c, c)
    ensures p != [] && At(h, Ref(c), p) == Some(Ref(c))
  {
    var d :| (c, d) in EdgesOf(h) && Reach(EdgesOf(h), d, c);
    var k := EdgeChild(h, c, d);
    var q := WayTo(h, d, c);
    AtOne(h, Ref(c), [], k);
    AtConcat(h, Ref(c), [k], q);
    p := [k] + q;
  }

  /** Round a cycle as often as wanted. */
  lemma {:induction false} Around(h: Heap, c: Id, once: seq<nat>, n: nat) returns (p: seq<nat>)
    requires once != [] && At(h, Ref(c), once) == Some(Ref(c))
    ensures |p| >= n && At(h, Ref(c), p) == Some(Ref(c))
  {
    if n == 0 {
      p := [];
    } else {
      var q := Around(h, c, once, n - 1);
      AtConcat(h, Ref(c), q, once);
      p := q + once;
    }
  }

  /** From a container of the old heap, the same is found in the new one. */
  lemma {:induction false} OldStays(h0: Heap, h: Heap, v: Value, p: seq<nat>)
    requires ClosedHeap(h0) && InHeap(h0, v) && forall id :: id in h0 ==> id in h && h[id] == h0[id]
    ensures At(h, v, p) == At(h0, v, p)
  {
    if p != [] {
      OldStays(h0, h, v, p[..|p| - 1]);
      AtInHeap(h0, v, p[..|p| - 1]);
    }
  }

  lemma WayToAltered(h: Heap, rule: Rule, c: Id) returns (p: seq<nat>, t: string)
    requires Altered(h, rule, {}, Ref(c))
    ensures At(h, Ref(c), p) == Some(Text(t)) && Alters(rule, t)
  {
    AvoidingNone(EdgesOf(h));
    var b :| Reach(EdgesOf(h), c, b) && HoldsText(h, t => Alters(rule, t), b);
    var k :| 0 <= k < |h[b].children| && h[b].children[k].Text? && Alters(rule, h[b].children[k].text);
    var q := WayTo(h, c, b);
    AtOne(h, Ref(c), q, k);
    p, t := q + [k], h[b].children[k].text;
  }

  /** Where the result leads to an old container, the altered text in it is found as it was. */
  lemma OldIsUnresolved(h0: Heap, rule: Rule, h: Heap, v: Value, r: Value, p: seq<nat>, c: Id)
    requires ClosedHeap(h0) && c in h0 && (forall id :: id in h0 ==> id in h && h[id] == h0[id])
    requires At(h0, v, p) == Some(Ref(c)) == At(h, r, p) && Altered(h0, rule, {}, Ref(c))
    ensures !ResolvedEverywhere(h0, rule, h, v, r)
  {
    var on, t := WayToAltered(h0, rule, c);
    hide Altered, At, ClosedHeap;
    AtConcat(h0, v, p, on);
    AtConcat(h, r, p, on);
    OldStays(h0, h, Ref(c), on);
    assert !SameShape(h0, rule, h, At(h0, v, p + on), At(h, r, p + on));
  }

  /** A way to a container longer than there are copies. */
  lemma LongWay(h: Heap, v: Value, c: Id, n: nat) returns (p: seq<nat>)
    requires v.Ref? && Reach(EdgesOf(h), v.id, c) && ReachPlus(EdgesOf(h), c, c)
    ensures |p| >= n && At(h, v, p) == Some(Ref(c))
  {
    var to := WayTo(h, v.id, c);
    var once := WayBack(h, c);
    var round := Around(h, c, once, n);
    AtConcat(h, v, to, round);
    p := to + round;
  }

  /** Round a cycle often enough, the result has no copies left, and the text beyond is as it was. */
  lemma UnstableIsNotResolved(h0: Heap, rule: Rule, h: Heap, origin: map<Id, Id>, next: Id, v: Value, r: Value)
    requires Copies(h0, rule, h, origin, next) && ClosedHeap(h0) && InHeap(h0, v) && IsResult(h0, rule, origin, v, r)
    requires !Stable(h0, rule, v)
    ensures !ResolvedEverywhere(h0, rule, h, v, r)
  {
    var c :| c in h0 && Reach(EdgesOf(h0), v.id, c) && ReachPlus(EdgesOf(h0), c, c) && Altered(h0, rule, {}, Ref(c));
    var p := LongWay(h0, v, c, next);
    hide Reach, ReachPlus, Altered, IsResult, At, ClosedHeap, ResolvedEverywhere, Stable;
    FollowsAt(h0, rule, h, origin, next, v, r, p);
    OldIsUnresolved(h0, rule, h, v, r, p, c);
  }

  // ----- Substituting variables

  function Substituting(resolve: string -> string): Rule {
    t => Resolved(t, resolve)
  }

  function Nothing(): Rule {
    t => t
  }

  lemma AlteredIsRewritten(h: Heap, resolve: string -> string, v: Value, c: Id)
    requires v.Ref? && Reach(EdgesOf(h), v.id, c) && Altered(h, Substituting(resolve), {}, Ref(c))
    ensures SomeRewritten(h, resolve, v)
  {
    AvoidingNone(EdgesOf(h));
    var b :| Reach(EdgesOf(h), c, b) && HoldsText(h, t => Alters(Substituting(resolve), t), b);
    var k :| 0 <= k < |h[b].children| && h[b].children[k].Text? && Alters(Substituting(resolve), h[b].children[k].text);
    ReachTrans(EdgesOf(h), v.id, c, b);
    if !Rewrites(h[b].children[k].text, resolve) { UnrewrittenStays(h[b].children[k].text, resolve); }
  }

  lemma UnrewrittenIsStable(h: Heap, resolve: string -> string, v: Value)
    requires !SomeRewritten(h, resolve, v)
    ensures Stable(h, Substituting(resolve), v)
  {
    if v.Ref? {
      forall c | c in h && Reach(EdgesOf(h), v.id, c) && ReachPlus(EdgesOf(h), c, c)
        ensures !Altered(h, Substituting(resolve), {}, Ref(c))
      {
        if Altered(h, Substituting(resolve), {}, Ref(c)) { AlteredIsRewritten(h, resolve, v, c); }
      }
    }
  }

  lemma FoundUnrewritten(h: Heap, resolve: string -> string, v: Value, p: seq<nat>, t: string)
    requires ClosedHeap(h) && InHeap(h, v) && !SomeRewritten(h, resolve, v) && At(h, v, p) == Some(Text(t))
    ensures Resolved(t, resolve) == t
  {
    if p != [] {
      AtInHeap(h, v, p[..|p| - 1]);
      var a := At(h, v, p[..|p| - 1]).value.id;
      assert h[a].children[p[|p| - 1]] == Text(t);
    }
    UnrewrittenStays(t, resolve);
  }

  /** When substituting would rewrite nothing, the result is the value again, whatever its nesting and its cycles. */
  lemma UnrewrittenIsSame(h: Heap, resolve: string -> string, h': Heap, v: Value, r: Value)
    requires ClosedHeap(h) && InHeap(h, v) && !SomeRewritten(h, resolve, v)
    requires ResolvedEverywhere(h, Substituting(resolve), h', v, r)
    ensures ResolvedEverywhere(h, Nothing(), h', v, r)
  {
    hide SomeRewritten, ClosedHeap, InHeap, Resolved, At;
    forall p ensures SameShape(h, Nothing(), h', At(h, v, p), At(h', r, p)) {
      assert SameShape(h, Substituting(resolve), h', At(h, v, p), At(h', r, p));
      if At(h, v, p).Some? && At(h, v, p).value.Text? {
        FoundUnrewritten(h, resolve, v, p, At(h, v, p).value.text);
      }
    }
  }

  /** Substitution resolves the whole value if and only if no container that can reach itself has a text inside it that
      is altered. In particular it does when no container reaches itself, and when nothing would be rewritten: then
      the result is the value again. `same` tells whether the very same value comes back: exactly when every text in
      it comes back as the very same string; otherwise it is a new container. */
  method ResolveValue(h: Heap, next: Id, v: Value, resolve: string -> string, keeps: string -> bool)
    returns (h': Heap, r: Value, same: bool)
    requires ClosedHeap(h) && InHeap(h, v) && forall id :: id in h ==> id < next
    requires forall t :: keeps(t) ==> Resolved(t, resolve) == t
    ensures forall id :: id in h ==> id in h' && h'[id] == h[id]
    ensures InHeap(h', r)
    ensures ResolvedEverywhere(h, Substituting(resolve), h', v, r) <==> Stable(h, Substituting(resolve), v)
    ensures !SomeRewritten(h, resolve, v) ==> ResolvedEverywhere(h, Nothing(), h', v, r)
    ensures same <==> !Replaced(h, keeps, {}, v)
    ensures (same ==> r == v) && (v.Ref? && !same ==> r.Ref? && r.id !in h)
  {
    hide ResolvedEverywhere, Stable, SomeRewritten, Resolved;
    var rule := Substituting(resolve);
    var walk := new ResolveWalk(h, next, rule, keeps);
    r, same := walk.Resolve(v);
    h' := walk.heap;
    if Stable(h, rule, v) {
      StableIsResolved(h, rule, h', walk.origin, walk.next, v, r);
    } else {
      UnstableIsNotResolved(h, rule, h', walk.origin, walk.next, v, r);
    }
    if !SomeRewritten(h, resolve, v) {
      UnrewrittenIsStable(h, resolve, v);
      UnrewrittenIsSame(h, resolve, h', v, r);
    }
  }

  lemma AcyclicIsStable(h: Heap, rule: Rule, v: Value)
    requires Acyclic(EdgesOf(h))
    ensures Stable(h, rule, v)
  {
  }

  /** The converse fails: rewriting tokens can give back the same text. */
  lemma RewritingCanGiveBack(resolve: string -> string)
    requires resolve("{A}") == "" && resolve("{B}") == "{A}{B}"
    ensures Rewrites("{A}{B}", resolve) && Resolved("{A}{B}", resolve) == "{A}{B}"
  {
    var s := "{A}{B}";
    assert NextBrace(s, 1) == 2 && TokenAt(s, 0) && NextBrace(s, 4) == 5 && TokenAt(s, 3);
    assert s[0..3] == "{A}" && s[3..6] == "{B}";
    assert Pieces(s, 6) == [];
    assert Pieces(s, 3) == [Token("{B}")] + [];
    assert Pieces(s, 0) == [Token("{A}")] + [Token("{B}")];
    assert Token("{A}") in Pieces(s, 0);
    WrittenStep(Token("{B}"), [], resolve);
    WrittenStep(Token("{A}"), [Token("{B}")], resolve);
    assert s[1] == 'A' && s[0] == '{';
  }
}
