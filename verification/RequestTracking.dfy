/** The request client's bookkeeping as a step system: every section that holds the lock is one step, and a
    waiter's cancelling of its own future, which takes no lock, is another. */
module RequestTracking {
  import opened Options
  import opened Sequences

  const REMEMBERED := 1000

  const SUCCESS := "EventResultSuccess"
  const FAILURE := "EventResultFailure"

  /** The parts of a message's payload that decide what happens to it; `rest` is everything else. */
  datatype Payload = Payload(requestId: string, eventType: string, details: string, exc: string, rest: string)

  datatype FutureState =
    | Waiting
    | Cancelled
    | Resolved(payload: Payload)
    | Rejected(error: string)

  datatype Pending<F> = Pending(future: F, tag: string, failuresAsPayload: bool)

  /** `order` lists the pending ids in the order they were tracked; `abandoned` is oldest first. */
  datatype State<!F> = State(pending: map<string, Pending<F>>, order: seq<string>,
                             abandoned: seq<string>, futures: map<F, FutureState>)

  // ----- The steps

  /** A future takes its first terminal state and keeps it; later attempts are dropped. */
  function Settled(now: FutureState, outcome: FutureState): FutureState {
    if now == Waiting then outcome else now
  }

  function Settle<F(==)>(futures: map<F, FutureState>, f: F, outcome: FutureState): map<F, FutureState> {
    if f in futures then futures[f := Settled(futures[f], outcome)] else futures
  }

  function Remember(abandoned: seq<string>, id: string): seq<string> {
    var longer := if id in abandoned then abandoned else abandoned + [id];
    if |longer| > REMEMBERED then longer[1..] else longer
  }

  /** An entry leaves the pending requests and its future is settled. */
  function Popped<F(==)>(s: State<F>, id: string, outcome: FutureState): State<F>
    requires id in s.pending
  {
    State(s.pending - {id}, RemoveFirst(s.order, id), s.abandoned, Settle(s.futures, s.pending[id].future, outcome))
  }

  function Abandoned<F(==)>(s: State<F>, id: string, outcome: FutureState): State<F>
    requires id in s.pending
  {
    Popped(s, id, outcome).(abandoned := Remember(s.abandoned, id))
  }

  /** Tracking an id that is already pending is refused. */
  function Tracked<F(==)>(s: State<F>, id: string, tag: string, failuresAsPayload: bool, f: F): State<F> {
    if id in s.pending then s
    else State(s.pending[id := Pending(f, tag, failuresAsPayload)], s.order + [id], s.abandoned, s.futures[f := Waiting])
  }

  function Discarded<F(==)>(s: State<F>, id: string): State<F> {
    if id in s.pending then Abandoned(s, id, Cancelled) else s
  }

  function Tagged<F>(s: State<F>, order: seq<string>, tag: string): seq<string>
    decreases order
  {
    if order == [] then []
    else (if order[0] in s.pending && s.pending[order[0]].tag == tag then [order[0]] else []) + Tagged(s, order[1..], tag)
  }

  function FailedAll<F(==)>(s: State<F>, ids: seq<string>, error: string): State<F>
    decreases ids
  {
    if ids == [] then s
    else if ids[0] in s.pending then FailedAll(Abandoned(s, ids[0], Rejected(error)), ids[1..], error)
    else FailedAll(s, ids[1..], error)
  }

  function FailedByTag<F(==)>(s: State<F>, tag: string, error: string): State<F> {
    FailedAll(s, Tagged(s, s.order, tag), error)
  }

  lemma TaggedStep<F>(s: State<F>, order: seq<string>, tag: string)
    requires order != [] && order[0] in s.pending
    ensures Tagged(s, order, tag) ==
      (if s.pending[order[0]].tag == tag then [order[0]] else []) + Tagged(s, order[1..], tag)
  {
  }

  lemma TaggedNone<F>(s: State<F>, tag: string)
    ensures Tagged(s, [], tag) == []
  {
  }

  lemma FailedAllStep<F>(s: State<F>, ids: seq<string>, error: string)
    requires ids != [] && ids[0] in s.pending
    ensures FailedAll(s, ids, error) == FailedAll(Abandoned(s, ids[0], Rejected(error)), ids[1..], error)
  {
  }

  lemma FailedAllNone<F>(s: State<F>, error: string)
    ensures FailedAll(s, [], error) == s
  {
  }

  lemma AbandonedPending<F>(s: State<F>, id: string, outcome: FutureState)
    requires id in s.pending
    ensures Abandoned(s, id, outcome).pending == s.pending - {id}
  {
  }

  lemma FailedByTagIs<F>(s: State<F>, tag: string, error: string)
    ensures FailedByTag(s, tag, error) == FailedAll(s, Tagged(s, s.order, tag), error)
  {
  }

  function ErrorText(m: Payload): string {
    if m.details != "" then m.details else if m.exc != "" then m.exc else "Unknown error"
  }

  predicate IsReply(m: Payload) {
    m.eventType == SUCCESS || m.eventType == FAILURE
  }

  /** What a recognised reply settles a waiting future with. */
  function Outcome(m: Payload, failuresAsPayload: bool): FutureState {
    if m.eventType == FAILURE && !failuresAsPayload then Rejected(ErrorText(m)) else Resolved(m)
  }

  function Claims<F>(s: State<F>, m: Payload): bool {
    m.requestId != "" && (m.requestId in s.abandoned || (m.requestId in s.pending && IsReply(m)))
  }

  function Delivered<F(==)>(s: State<F>, m: Payload): State<F> {
    if m.requestId == "" then s
    else if m.requestId in s.abandoned then s.(abandoned := RemoveFirst(s.abandoned, m.requestId))
    else if m.requestId !in s.pending || !IsReply(m) then s
    else Popped(s, m.requestId, Outcome(m, s.pending[m.requestId].failuresAsPayload))
  }

  datatype Action<F> =
    | Track(id: string, tag: string, failuresAsPayload: bool, future: F)
    | Discard(id: string)
    | Fail(tag: string, error: string)
    | Deliver(message: Payload)
    | WaiterCancels(future: F)

  function Next<F(==)>(s: State<F>, a: Action<F>): State<F> {
    match a
    case Track(id, tag, failuresAsPayload, f) => Tracked(s, id, tag, failuresAsPayload, f)
    case Discard(id) => Discarded(s, id)
    case Fail(tag, error) => FailedByTag(s, tag, error)
    case Deliver(m) => Delivered(s, m)
    case WaiterCancels(f) => s.(futures := Settle(s.futures, f, Cancelled))
  }

  /** A tracked request gets a future made for it. */
  ghost predicate Enabled<F>(s: State<F>, a: Action<F>) {
    a.Track? ==> a.future !in s.futures
  }

  function After<F(==)>(s: State<F>, actions: seq<Action<F>>): State<F>
    decreases actions
  {
    if actions == [] then s else After(Next(s, actions[0]), actions[1..])
  }

  ghost predicate IsRun<F>(s: State<F>, actions: seq<Action<F>>)
    decreases actions
  {
    actions == [] || (Enabled(s, actions[0]) && IsRun(Next(s, actions[0]), actions[1..]))
  }

  function Initial<F(==)>(): State<F> {
    State(map[], [], [], map[])
  }

  // ----- What every reachable state satisfies

  /** Each pending request has a future of its own, and no future that still waits has lost its request. */
  ghost predicate NoLostAwaiter<F>(s: State<F>) {
    && (forall id :: id in s.pending ==> s.pending[id].future in s.futures)
    && (forall i, j :: i in s.pending && j in s.pending && s.pending[i].future == s.pending[j].future ==> i == j)
    && (forall f :: f in s.futures && s.futures[f] == Waiting ==> exists id :: id in s.pending && s.pending[id].future == f)
  }

  ghost predicate Ordered<F>(s: State<F>) {
    NoDuplicates(s.order) && forall id :: id in s.order <==> id in s.pending
  }

  ghost predicate Remembers(abandoned: seq<string>) {
    NoDuplicates(abandoned) && |abandoned| <= REMEMBERED
  }

  ghost predicate Inv<F>(s: State<F>) {
    NoLostAwaiter(s) && Ordered(s) && Remembers(s.abandoned)
  }

  /** No id is both pending and remembered as abandoned. */
  ghost predicate Disjoint<F>(s: State<F>) {
    forall id :: id in s.pending ==> id !in s.abandoned
  }

  /** Settled futures are as they were, and no future is gone. */
  ghost predicate TerminalKept<F>(s: State<F>, t: State<F>) {
    forall f :: f in s.futures ==> f in t.futures && (s.futures[f] != Waiting ==> t.futures[f] == s.futures[f])
  }

  lemma RememberKeeps(abandoned: seq<string>, id: string)
    requires Remembers(abandoned)
    ensures Remembers(Remember(abandoned, id)) && id in Remember(abandoned, id)
    ensures forall x :: x in Remember(abandoned, id) ==> x in abandoned || x == id
  {
    var longer := if id in abandoned then abandoned else abandoned + [id];
    if id !in abandoned {
      assert longer[|longer| - 1] == id;
      assert |longer| > REMEMBERED ==> longer[1..][|longer| - 2] == id;
    }
  }

  lemma RememberIsNewest(abandoned: seq<string>, id: string)
    requires Remembers(abandoned) && id !in abandoned
    ensures Remember(abandoned, id) == Newest(abandoned + [id], REMEMBERED)
  {
  }

  lemma PoppedKeeps<F>(s: State<F>, id: string, outcome: FutureState)
    requires NoLostAwaiter(s) && Ordered(s) && id in s.pending && outcome != Waiting
    ensures NoLostAwaiter(Popped(s, id, outcome)) && Ordered(Popped(s, id, outcome))
    ensures TerminalKept(s, Popped(s, id, outcome))
  {
    var t := Popped(s, id, outcome);
    RemoveFirstKeepsDistinct(s.order, id);
    forall x ensures x in t.order <==> x in t.pending {
      RemoveFirstMembers(s.order, id, x);
    }
    forall f | f in t.futures && t.futures[f] == Waiting
      ensures exists x :: x in t.pending && t.pending[x].future == f
    {
      var x :| x in s.pending && s.pending[x].future == f;
      assert x in t.pending;
    }
  }

  lemma AbandonedKeeps<F>(s: State<F>, id: string, outcome: FutureState)
    requires Inv(s) && id in s.pending && outcome != Waiting
    ensures Inv(Abandoned(s, id, outcome)) && TerminalKept(s, Abandoned(s, id, outcome))
    ensures Disjoint(s) ==> Disjoint(Abandoned(s, id, outcome))
  {
    PoppedKeeps(s, id, outcome);
    RememberKeeps(s.abandoned, id);
  }

  lemma {:induction false} FailedAllKeeps<F>(s: State<F>, ids: seq<string>, error: string)
    requires Inv(s)
    ensures Inv(FailedAll(s, ids, error)) && TerminalKept(s, FailedAll(s, ids, error))
    ensures Disjoint(s) ==> Disjoint(FailedAll(s, ids, error))
    decreases ids
  {
    if ids != [] && ids[0] in s.pending {
      AbandonedKeeps(s, ids[0], Rejected(error));
      FailedAllKeeps(Abandoned(s, ids[0], Rejected(error)), ids[1..], error);
    } else if ids != [] {
      FailedAllKeeps(s, ids[1..], error);
    }
  }

  lemma TrackedKeeps<F>(s: State<F>, id: string, tag: string, failuresAsPayload: bool, f: F)
    requires Inv(s) && f !in s.futures
    ensures Inv(Tracked(s, id, tag, failuresAsPayload, f)) && TerminalKept(s, Tracked(s, id, tag, failuresAsPayload, f))
  {
    var t := Tracked(s, id, tag, failuresAsPayload, f);
    if id !in s.pending {
      forall g | g in t.futures && t.futures[g] == Waiting ensures exists x :: x in t.pending && t.pending[x].future == g {
        if g == f {
          assert t.pending[id].future == g;
        } else {
          var x :| x in s.pending && s.pending[x].future == g;
          assert t.pending[x].future == g;
        }
      }
    }
  }

  lemma DeliveredKeeps<F>(s: State<F>, m: Payload)
    requires Inv(s)
    ensures Inv(Delivered(s, m)) && TerminalKept(s, Delivered(s, m))
    ensures Disjoint(s) ==> Disjoint(Delivered(s, m))
  {
    if m.requestId in s.abandoned {
      RemoveFirstKeepsDistinct(s.abandoned, m.requestId);
      forall x ensures x in RemoveFirst(s.abandoned, m.requestId) ==> x in s.abandoned {
        RemoveFirstMembers(s.abandoned, m.requestId, x);
      }
      RemoveFirstMembers(s.abandoned, m.requestId, m.requestId);
    } else if m.requestId in s.pending && IsReply(m) {
      PoppedKeeps(s, m.requestId, Outcome(m, s.pending[m.requestId].failuresAsPayload));
    }
  }

  lemma NextKeeps<F>(s: State<F>, a: Action<F>)
    requires Inv(s) && Enabled(s, a)
    ensures Inv(Next(s, a)) && TerminalKept(s, Next(s, a))
  {
    match a
    case Track(id, tag, failuresAsPayload, f) => TrackedKeeps(s, id, tag, failuresAsPayload, f);
    case Discard(id) => if id in s.pending { AbandonedKeeps(s, id, Cancelled); }
    case Fail(tag, error) => FailedAllKeeps(s, Tagged(s, s.order, tag), error);
    case Deliver(m) => DeliveredKeeps(s, m);
    case WaiterCancels(f) =>
  }

  lemma InitialKept<F(!new)>()
    ensures Inv(Initial<F>()) && Disjoint(Initial<F>())
  {
  }

  /** Under any interleaving a future that still waits belongs to a pending request, and a settled future never
      changes again; the memory of abandoned requests stays within its bound. */
  lemma {:induction false} EveryRunKeeps<F>(s: State<F>, actions: seq<Action<F>>)
    requires Inv(s) && IsRun(s, actions)
    ensures Inv(After(s, actions)) && TerminalKept(s, After(s, actions))
    decreases actions
  {
    if actions != [] {
      NextKeeps(s, actions[0]);
      EveryRunKeeps(Next(s, actions[0]), actions[1..]);
    }
  }

  // ----- The memory of abandoned requests

  function Newest(ids: seq<string>, n: nat): seq<string> {
    if |ids| <= n then ids else ids[|ids| - n..]
  }

  /** Abandoning requests that are not yet remembered, one by one, keeps the newest of all of them in order. */
  lemma {:induction false} OldestAreForgotten<F>(s: State<F>, ids: seq<string>, error: string)
    requires Inv(s) && Disjoint(s) && NoDuplicates(ids)
    requires forall id :: id in ids ==> id in s.pending
    ensures FailedAll(s, ids, error).abandoned == Newest(s.abandoned + ids, REMEMBERED)
    decreases ids
  {
    hide NoLostAwaiter, Ordered, Newest, Remember;
    if ids == [] {
      assert s.abandoned + ids == s.abandoned;
      NewestOfFew(s.abandoned);
    } else {
      var t := Abandoned(s, ids[0], Rejected(error));
      AbandonedKeeps(s, ids[0], Rejected(error));
      assert forall id :: id in ids[1..] ==> id in t.pending;
      OldestAreForgotten(t, ids[1..], error);
      RememberIsNewest(s.abandoned, ids[0]);
      NewestAppends(s.abandoned + [ids[0]], ids[1..], REMEMBERED);
      assert s.abandoned + [ids[0]] + ids[1..] == s.abandoned + ids;
    }
  }

  lemma NewestOfFew(xs: seq<string>)
    requires Remembers(xs)
    ensures Newest(xs, REMEMBERED) == xs
  {
  }

  lemma NewestAppends(xs: seq<string>, ys: seq<string>, n: nat)
    ensures Newest(Newest(xs, n) + ys, n) == Newest(xs + ys, n)
  {
    if |xs| > n {
      var kept := xs[|xs| - n..];
      assert Newest(xs + ys, n) == (xs + ys)[|xs| + |ys| - n..];
      assert (xs + ys)[|xs| - n..] == kept + ys;
      assert (xs + ys)[|xs| + |ys| - n..] == (kept + ys)[|ys|..];
    }
  }

  lemma {:induction false} TaggedMembers<F>(s: State<F>, order: seq<string>, tag: string)
    requires NoDuplicates(order)
    ensures NoDuplicates(Tagged(s, order, tag))
    ensures forall id :: id in Tagged(s, order, tag) <==> id in order && id in s.pending && s.pending[id].tag == tag
  {
    if order != [] {
      TaggedMembers(s, order[1..], tag);
      assert order == [order[0]] + order[1..];
      assert order[0] !in order[1..];
    }
  }

  /** Failing a tag abandons exactly its requests, oldest first, and forgets the oldest past the bound. */
  lemma FailingForgetsOldest<F>(s: State<F>, tag: string, error: string)
    requires Inv(s) && Disjoint(s)
    ensures FailedByTag(s, tag, error).abandoned == Newest(s.abandoned + Tagged(s, s.order, tag), REMEMBERED)
    ensures forall id :: id in FailedByTag(s, tag, error).pending <==> id in s.pending && s.pending[id].tag != tag
  {
    TaggedMembers(s, s.order, tag);
    OldestAreForgotten(s, Tagged(s, s.order, tag), error);
    FailedAllPending(s, Tagged(s, s.order, tag), error);
  }

  lemma {:induction false} FailedAllPending<F>(s: State<F>, ids: seq<string>, error: string)
    ensures forall id :: id in FailedAll(s, ids, error).pending <==> id in s.pending && id !in ids
    ensures forall id :: id in FailedAll(s, ids, error).pending ==> FailedAll(s, ids, error).pending[id] == s.pending[id]
    decreases ids
  {
    if ids != [] {
      assert ids == [ids[0]] + ids[1..];
      if ids[0] in s.pending {
        FailedAllPending(Abandoned(s, ids[0], Rejected(error)), ids[1..], error);
      } else {
        FailedAllPending(s, ids[1..], error);
      }
    }
  }

  // ----- What a step does to the futures

  /** `f` is the future of a pending request with the tag. */
  ghost predicate AwaitsUnder<F>(s: State<F>, f: F, tag: string) {
    exists id :: id in s.pending && s.pending[id].future == f && s.pending[id].tag == tag
  }

  ghost predicate FutureOf<F>(s: State<F>, f: F, ids: seq<string>) {
    exists id :: id in ids && id in s.pending && s.pending[id].future == f
  }

  lemma AbandonedSettles<F>(s: State<F>, id: string, outcome: FutureState)
    requires id in s.pending && s.pending[id].future in s.futures
    ensures var t, p := Abandoned(s, id, outcome), s.pending[id].future;
      && t.futures.Keys == s.futures.Keys
      && forall f :: f in s.futures ==> t.futures[f] == if f == p && s.futures[f] == Waiting then outcome else s.futures[f]
  {
  }

  lemma {:induction false} FailedAllSettles<F>(s: State<F>, ids: seq<string>, error: string)
    requires Inv(s)
    ensures var t := FailedAll(s, ids, error);
      && t.futures.Keys == s.futures.Keys
      && forall f :: f in s.futures ==>
           t.futures[f] == if s.futures[f] == Waiting && FutureOf(s, f, ids) then Rejected(error) else s.futures[f]
    decreases ids
  {
    if ids != [] {
      var rest := ids[1..];
      assert ids == [ids[0]] + rest;
      if ids[0] in s.pending {
        var t := Abandoned(s, ids[0], Rejected(error));
        AbandonedKeeps(s, ids[0], Rejected(error));
        AbandonedSettles(s, ids[0], Rejected(error));
        FailedAllSettles(t, rest, error);
        forall f | f in s.futures
          ensures FutureOf(s, f, ids) <==> f == s.pending[ids[0]].future || FutureOf(t, f, rest)
        {
          SplitsFirst(s, t, ids, f);
        }
      } else {
        FailedAllSettles(s, rest, error);
        assert forall f :: FutureOf(s, f, ids) <==> FutureOf(s, f, rest);
      }
    }
  }

  lemma SplitsFirst<F>(s: State<F>, t: State<F>, ids: seq<string>, f: F)
    requires NoLostAwaiter(s) && ids != [] && ids[0] in s.pending && t.pending == s.pending - {ids[0]}
    ensures FutureOf(s, f, ids) <==> f == s.pending[ids[0]].future || FutureOf(t, f, ids[1..])
  {
    assert ids == [ids[0]] + ids[1..];
    if FutureOf(s, f, ids) && f != s.pending[ids[0]].future {
      var id :| id in ids && id in s.pending && s.pending[id].future == f;
      assert id in ids[1..] && id in t.pending;
    }
    if FutureOf(t, f, ids[1..]) {
      var id :| id in ids[1..] && id in t.pending && t.pending[id].future == f;
      assert id in ids;
    }
  }

  /** Failing a tag raises the error at everyone who waits for a request with it; every other future is as it was, and
      every other request stays pending. */
  lemma FailingRaisesAtAwaiters<F>(s: State<F>, tag: string, error: string)
    requires Inv(s)
    ensures var t := FailedByTag(s, tag, error);
      && t == Next(s, Fail(tag, error)) && t.futures.Keys == s.futures.Keys
      && (forall f :: f in s.futures ==>
            t.futures[f] == if s.futures[f] == Waiting && AwaitsUnder(s, f, tag) then Rejected(error) else s.futures[f])
      && (forall id :: id in t.pending <==> id in s.pending && s.pending[id].tag != tag)
      && (forall id :: id in t.pending ==> t.pending[id] == s.pending[id])
  {
    var ids := Tagged(s, s.order, tag);
    TaggedMembers(s, s.order, tag);
    FailedAllSettles(s, ids, error);
    FailedAllPending(s, ids, error);
    forall f ensures FutureOf(s, f, ids) <==> AwaitsUnder(s, f, tag) {
      if id :| id in s.pending && s.pending[id].future == f && s.pending[id].tag == tag { assert id in ids; }
    }
  }

  /** Discarding a pending request cancels its future, unless it has an outcome, and remembers the id as the newest. */
  lemma DiscardCancels<F>(s: State<F>, id: string)
    requires Inv(s)
    ensures Next(s, Discard(id)) == Discarded(s, id) && (id !in s.pending ==> Discarded(s, id) == s)
    ensures id in s.pending ==>
      var t, p := Discarded(s, id), s.pending[id].future;
      && t.pending == s.pending - {id} && t.futures.Keys == s.futures.Keys
      && (forall f :: f in s.futures ==>
            t.futures[f] == if f == p && s.futures[f] == Waiting then Cancelled else s.futures[f])
      && id in t.abandoned
      && t.abandoned == if id in s.abandoned then s.abandoned else Newest(s.abandoned + [id], REMEMBERED)
  {
    if id in s.pending {
      AbandonedSettles(s, id, Cancelled);
      RememberKeeps(s.abandoned, id);
      if id !in s.abandoned { RememberIsNewest(s.abandoned, id); }
    }
  }

  /** A reply to a pending request settles its future: with the message, or for a failure that is to be raised with the
      reason it gives. */
  lemma ReplySettles<F>(s: State<F>, m: Payload)
    requires Inv(s) && m.requestId != "" && m.requestId in s.pending && m.requestId !in s.abandoned
    requires m.eventType == "EventResultSuccess" || m.eventType == "EventResultFailure"
    ensures var t, p := Delivered(s, m), s.pending[m.requestId];
      var raised := m.eventType == "EventResultFailure" && !p.failuresAsPayload;
      var reason := if m.details != "" then m.details else if m.exc != "" then m.exc else "Unknown error";
      && t == Next(s, Deliver(m)) && Claims(s, m) && t.pending == s.pending - {m.requestId} && t.abandoned == s.abandoned
      && t.futures.Keys == s.futures.Keys
      && forall f :: f in s.futures ==>
           t.futures[f] == if f == p.future && s.futures[f] == Waiting then (if raised then Rejected(reason) else Resolved(m))
                           else s.futures[f]
  {
  }

  /** A waiter that gives up cancels its own future, unless it has an outcome; its request stays pending until a reply or
      a discard finds it. */
  lemma WaiterGivesUp<F>(s: State<F>, f: F)
    ensures var t := Next(s, WaiterCancels(f));
      && t.pending == s.pending && t.order == s.order && t.abandoned == s.abandoned && t.futures.Keys == s.futures.Keys
      && forall g :: g in s.futures ==> t.futures[g] == if g == f && s.futures[g] == Waiting then Cancelled else s.futures[g]
  {
  }

  /** A message is claimed exactly when it changes something. */
  lemma ClaimedIff<F>(s: State<F>, m: Payload)
    requires Inv(s)
    ensures Claims(s, m) <==> Delivered(s, m) != s
  {
    if m.requestId in s.abandoned { RemoveFirstMembers(s.abandoned, m.requestId, m.requestId); }
    if Claims(s, m) && m.requestId !in s.abandoned { assert m.requestId !in Delivered(s, m).pending; }
  }

  /** A request is tracked as asked: failing a tag raises at it exactly if the tag is its own, and a failure reply comes
      to it as a message exactly if it asked for that. An id that is pending is refused. */
  lemma TrackedAsAsked<F>(s: State<F>, id: string, tag: string, failuresAsPayload: bool, f: F, other: string,
                          error: string, m: Payload)
    requires Inv(s) && f !in s.futures
    requires m.requestId == id != "" && id !in s.abandoned && m.eventType == FAILURE
    ensures Next(s, Track(id, tag, failuresAsPayload, f)) == Tracked(s, id, tag, failuresAsPayload, f)
    ensures id in s.pending ==> Tracked(s, id, tag, failuresAsPayload, f) == s
    ensures id !in s.pending ==>
      var t := Tracked(s, id, tag, failuresAsPayload, f);
      var u, v := FailedByTag(t, other, error), Delivered(t, m);
      && t.futures == s.futures[f := Waiting] && t.order == s.order + [id]
      && f in u.futures && u.futures[f] == (if other == tag then Rejected(error) else Waiting)
      && f in v.futures && v.futures[f] == (if failuresAsPayload then Resolved(m) else Rejected(ErrorText(m)))
  {
    if id !in s.pending {
      var t := Tracked(s, id, tag, failuresAsPayload, f);
      TrackedKeeps(s, id, tag, failuresAsPayload, f);
      assert t.pending[id].future == f;
      ReplySettles(t, m);
      FailingRaisesAtAwaiters(t, other, error);
    }
  }

  /** A step leaves pending and remembered ids apart exactly when it does not track a remembered id again. */
  lemma DisjointIff<F>(s: State<F>, a: Action<F>)
    requires Inv(s) && Enabled(s, a) && Disjoint(s)
    ensures Disjoint(Next(s, a)) <==> !(a.Track? && a.id in s.abandoned)
  {
    match a
    case Track(id, tag, failuresAsPayload, f) =>
      assert id in Next(s, a).pending;
    case Discard(id) => if id in s.pending { AbandonedKeeps(s, id, Cancelled); }
    case Fail(tag, error) => FailedAllKeeps(s, Tagged(s, s.order, tag), error);
    case Deliver(m) => DeliveredKeeps(s, m);
    case WaiterCancels(f) =>
  }

  ghost predicate DisjointThroughout<F>(s: State<F>, actions: seq<Action<F>>)
    decreases actions
  {
    Disjoint(s) && (actions == [] || DisjointThroughout(Next(s, actions[0]), actions[1..]))
  }

  ghost predicate NeverRetracks<F>(s: State<F>, actions: seq<Action<F>>)
    decreases actions
  {
    actions == [] ||
    (!(actions[0].Track? && actions[0].id in s.abandoned) && NeverRetracks(Next(s, actions[0]), actions[1..]))
  }

  /** So a run keeps them apart in every state exactly when it never tracks an id that is remembered. */
  lemma {:induction false} DisjointThroughoutIff<F>(s: State<F>, actions: seq<Action<F>>)
    requires Inv(s) && Disjoint(s) && IsRun(s, actions)
    ensures DisjointThroughout(s, actions) <==> NeverRetracks(s, actions)
    decreases actions
  {
    hide Inv, Disjoint, Next, Enabled;
    if actions != [] {
      NextKeeps(s, actions[0]);
      DisjointIff(s, actions[0]);
      if Disjoint(Next(s, actions[0])) { DisjointThroughoutIff(Next(s, actions[0]), actions[1..]); }
    }
  }

  function TrackedIds<F>(actions: seq<Action<F>>): seq<string> {
    if actions == [] then []
    else (if actions[0].Track? then [actions[0].id] else []) + TrackedIds(actions[1..])
  }

  /** Every id the state knows is one of `known`. */
  ghost predicate Knows<F>(s: State<F>, known: set<string>) {
    (forall id :: id in s.pending ==> id in known) && forall id :: id in s.abandoned ==> id in known
  }

  lemma {:induction false} FailedAllKnows<F>(s: State<F>, ids: seq<string>, error: string, known: set<string>)
    requires Inv(s) && Knows(s, known)
    ensures Knows(FailedAll(s, ids, error), known)
    decreases ids
  {
    if ids != [] && ids[0] in s.pending {
      AbandonedKeeps(s, ids[0], Rejected(error));
      RememberKeeps(s.abandoned, ids[0]);
      FailedAllKnows(Abandoned(s, ids[0], Rejected(error)), ids[1..], error, known);
    } else if ids != [] {
      FailedAllKnows(s, ids[1..], error, known);
    }
  }

  lemma NextKnows<F>(s: State<F>, a: Action<F>, known: set<string>)
    requires Inv(s) && Knows(s, known)
    ensures Knows(Next(s, a), if a.Track? then known + {a.id} else known)
  {
    match a
    case Track(_, _, _, _) =>
    case Discard(id) => if id in s.pending { RememberKeeps(s.abandoned, id); }
    case Fail(tag, error) => FailedAllKnows(s, Tagged(s, s.order, tag), error, known);
    case Deliver(m) =>
      if m.requestId in s.abandoned {
        forall x ensures x in RemoveFirst(s.abandoned, m.requestId) ==> x in s.abandoned {
          RemoveFirstMembers(s.abandoned, m.requestId, x);
        }
      }
    case WaiterCancels(_) =>
  }

  lemma {:induction false} FreshNeverRetracks<F>(s: State<F>, actions: seq<Action<F>>, known: set<string>)
    requires Inv(s) && IsRun(s, actions) && Knows(s, known)
    requires NoDuplicates(TrackedIds(actions)) && forall id :: id in TrackedIds(actions) ==> id !in known
    ensures NeverRetracks(s, actions)
    decreases actions
  {
    hide Inv, Next, Enabled;
    if actions != [] {
      var a, ids := actions[0], TrackedIds(actions);
      NextKeeps(s, a);
      NextKnows(s, a, known);
      if a.Track? {
        assert ids[0] == a.id && ids[1..] == TrackedIds(actions[1..]);
        DistinctLater(ids, 0);
        assert forall id :: id in ids[1..] ==> id in ids;
        FreshNeverRetracks(Next(s, a), actions[1..], known + {a.id});
      } else {
        assert ids == TrackedIds(actions[1..]);
        FreshNeverRetracks(Next(s, a), actions[1..], known);
      }
    }
  }

  /** From the start, every state satisfies the invariants; and while no id is tracked twice, none is ever both pending
      and remembered. */
  lemma EveryRunFromTheStart<F(!new)>(actions: seq<Action<F>>)
    requires IsRun(Initial<F>(), actions)
    ensures Inv(After(Initial<F>(), actions))
    ensures NoDuplicates(TrackedIds(actions)) ==> DisjointThroughout(Initial<F>(), actions)
  {
    InitialKept<F>();
    EveryRunKeeps(Initial<F>(), actions);
    if NoDuplicates(TrackedIds(actions)) {
      FreshNeverRetracks(Initial<F>(), actions, {});
      DisjointThroughoutIff(Initial<F>(), actions);
    }
  }

  /** A late reply to a remembered id is claimed, settles nothing, and is claimed only once. */
  lemma LateReplyClaimedOnce<F>(s: State<F>, m: Payload, again: Payload)
    requires Inv(s) && Disjoint(s) && m.requestId in s.abandoned && m.requestId != ""
    requires again.requestId == m.requestId
    ensures Claims(s, m) && Delivered(s, m).futures == s.futures && Delivered(s, m).pending == s.pending
    ensures !Claims(Delivered(s, m), again) && Delivered(Delivered(s, m), again) == Delivered(s, m)
  {
    RemoveFirstMembers(s.abandoned, m.requestId, m.requestId);
  }

  /** A message the filter does not claim leaves everything as it was. */
  lemma UnclaimedChangesNothing<F>(s: State<F>, m: Payload)
    requires !Claims(s, m)
    ensures Delivered(s, m) == s
  {
  }

  /** Tracking a remembered id again loses its first reply: the reply is taken for a late one and the new
      request's future goes on waiting. */
  lemma RetrackedReplyIsLost<F>(s: State<F>, id: string, tag: string, failuresAsPayload: bool, f: F, m: Payload)
    requires Inv(s) && f !in s.futures && id != "" && id in s.abandoned && id !in s.pending
    requires m.requestId == id && IsReply(m)
    ensures var t := Delivered(Tracked(s, id, tag, failuresAsPayload, f), m);
            t.futures[f] == Waiting && id in t.pending && Claims(Tracked(s, id, tag, failuresAsPayload, f), m)
  {
  }

  // ----- A batch of requests

  /** The first recognised reply to `id` among the actions. */
  function FirstReply<F>(actions: seq<Action<F>>, id: string): seq<Payload> {
    if actions == [] then []
    else if actions[0].Deliver? && actions[0].message.requestId == id && IsReply(actions[0].message)
      then [actions[0].message]
    else FirstReply(actions[1..], id)
  }

  /** Nothing but replies touches the request: it is not discarded or failed, and its waiter does not give up. */
  ghost predicate LeftAlone<F>(actions: seq<Action<F>>, id: string, p: Pending<F>) {
    && Discard(id) !in actions && WaiterCancels(p.future) !in actions
    && forall i :: 0 <= i < |actions| && actions[i].Fail? ==> actions[i].tag != p.tag
  }

  /** The request waits for its reply. */
  ghost predicate Awaits<F>(s: State<F>, id: string, p: Pending<F>) {
    id != "" && id in s.pending && s.pending[id] == p && id !in s.abandoned
    && p.future in s.futures && s.futures[p.future] == Waiting
  }

  lemma {:induction false} FailedAllSpares<F>(s: State<F>, ids: seq<string>, error: string, id: string, p: Pending<F>)
    requires Inv(s) && Awaits(s, id, p) && id !in ids
    ensures Awaits(FailedAll(s, ids, error), id, p)
    decreases ids
  {
    if ids != [] {
      assert ids == [ids[0]] + ids[1..];
      if ids[0] in s.pending {
        AbandonedKeeps(s, ids[0], Rejected(error));
        RememberKeeps(s.abandoned, ids[0]);
        FailedAllSpares(Abandoned(s, ids[0], Rejected(error)), ids[1..], error, id, p);
      } else {
        FailedAllSpares(s, ids[1..], error, id, p);
      }
    }
  }

  lemma StepSpares<F>(s: State<F>, a: Action<F>, id: string, p: Pending<F>)
    requires Inv(s) && Enabled(s, a) && Awaits(s, id, p) && LeftAlone([a], id, p)
    requires !(a.Deliver? && a.message.requestId == id && IsReply(a.message))
    ensures Awaits(Next(s, a), id, p)
  {
    assert a in [a] && [a][0] == a;
    match a
    case Track(_, _, _, _) =>
    case Discard(other) =>
      if other in s.pending { RememberKeeps(s.abandoned, other); }
    case Fail(tag, error) =>
      TaggedMembers(s, s.order, tag);
      FailedAllSpares(s, Tagged(s, s.order, tag), error, id, p);
    case Deliver(m) =>
      if m.requestId in s.abandoned { RemoveFirstMembers(s.abandoned, m.requestId, id); }
    case WaiterCancels(f) =>
  }

  /** Whatever else happens in between, the first recognised reply decides a request's result. */
  lemma {:induction false} FirstReplyDecides<F>(s: State<F>, actions: seq<Action<F>>, id: string, p: Pending<F>)
    requires Inv(s) && IsRun(s, actions) && Awaits(s, id, p) && LeftAlone(actions, id, p)
    ensures p.future in After(s, actions).futures
    ensures After(s, actions).futures[p.future] ==
      if FirstReply(actions, id) == [] then Waiting else Outcome(FirstReply(actions, id)[0], p.failuresAsPayload)
    decreases actions
  {
    if actions != [] {
      var a := actions[0];
      var t := Next(s, a);
      NextKeeps(s, a);
      if a.Deliver? && a.message.requestId == id && IsReply(a.message) {
        EveryRunKeeps(t, actions[1..]);
      } else {
        assert LeftAlone([a], id, p) by { assert a == actions[0]; }
        StepSpares(s, a, id, p);
        assert LeftAlone(actions[1..], id, p);
        FirstReplyDecides(t, actions[1..], id, p);
      }
    }
  }

  ghost predicate BatchAwaits<F>(s: State<F>, ids: seq<string>, entries: seq<Pending<F>>) {
    |ids| == |entries| && forall i :: 0 <= i < |ids| ==> Awaits(s, ids[i], entries[i])
  }

  ghost predicate BatchLeftAlone<F>(actions: seq<Action<F>>, ids: seq<string>, entries: seq<Pending<F>>)
    requires |ids| == |entries|
  {
    forall i :: 0 <= i < |ids| ==> LeftAlone(actions, ids[i], entries[i])
  }

  /** Two runs in which each request of a batch gets the same first reply give the batch the same results in
      submission order, however the replies and the rest of the traffic interleave. */
  lemma BatchOrderIndependent<F>(s: State<F>, ids: seq<string>, entries: seq<Pending<F>>,
                                       one: seq<Action<F>>, two: seq<Action<F>>)
    requires Inv(s) && IsRun(s, one) && IsRun(s, two) && BatchAwaits(s, ids, entries)
    requires BatchLeftAlone(one, ids, entries) && BatchLeftAlone(two, ids, entries)
    requires forall i :: 0 <= i < |ids| ==> FirstReply(one, ids[i]) == FirstReply(two, ids[i])
    ensures forall i :: 0 <= i < |ids| ==>
      && entries[i].future in After(s, one).futures && entries[i].future in After(s, two).futures
      && After(s, one).futures[entries[i].future] == After(s, two).futures[entries[i].future]
  {
    forall i | 0 <= i < |ids|
      ensures entries[i].future in After(s, one).futures && entries[i].future in After(s, two).futures
      ensures After(s, one).futures[entries[i].future] == After(s, two).futures[entries[i].future]
    {
      FirstReplyDecides(s, one, ids[i], entries[i]);
      FirstReplyDecides(s, two, ids[i], entries[i]);
    }
  }

  function Deliveries<F>(messages: seq<Payload>): (actions: seq<Action<F>>)
    ensures |actions| == |messages| && forall i :: 0 <= i < |messages| ==> actions[i] == Deliver(messages[i])
  {
    seq(|messages|, i requires 0 <= i < |messages| => Deliver(messages[i]))
  }

  /** `m` is the one recognised reply to `id` among the messages. */
  ghost predicate OnlyReply(messages: seq<Payload>, id: string, m: Payload) {
    && m in messages && m.requestId == id && IsReply(m)
    && forall x :: x in messages && x.requestId == id && IsReply(x) ==> x == m
  }

  lemma {:induction false} OnlyReplyIsFirst<F>(messages: seq<Payload>, id: string, m: Payload)
    requires OnlyReply(messages, id, m)
    ensures FirstReply(Deliveries<F>(messages), id) == [m]
  {
    var actions := Deliveries<F>(messages);
    if !(messages[0].requestId == id && IsReply(messages[0])) {
      assert messages == [messages[0]] + messages[1..];
      OnlyReplyIsFirst<F>(messages[1..], id, m);
      assert actions[1..] == Deliveries<F>(messages[1..]);
    } else {
      assert messages[0] in messages;
    }
  }

  lemma {:induction false} DeliveriesRun<F>(s: State<F>, messages: seq<Payload>)
    ensures IsRun(s, Deliveries<F>(messages))
    decreases messages
  {
    if messages != [] {
      var actions := Deliveries<F>(messages);
      DeliveriesRun(Next(s, actions[0]), messages[1..]);
      assert actions[1..] == Deliveries<F>(messages[1..]);
    }
  }

  /** The replies to a batch, delivered in any order among any other messages, settle its futures in submission
      order with the outcomes of their own replies. */
  lemma RepliesInAnyOrder<F>(s: State<F>, ids: seq<string>, entries: seq<Pending<F>>, replies: seq<Payload>,
                                   messages: seq<Payload>, arrived: seq<Payload>)
    requires Inv(s) && BatchAwaits(s, ids, entries) && |replies| == |ids|
    requires forall i :: 0 <= i < |ids| ==> OnlyReply(messages, ids[i], replies[i])
    requires multiset(arrived) == multiset(messages)
    ensures var t := After(s, Deliveries<F>(arrived));
            forall i :: 0 <= i < |ids| ==>
              && entries[i].future in t.futures
              && t.futures[entries[i].future] == Outcome(replies[i], entries[i].failuresAsPayload)
  {
    var t := After(s, Deliveries<F>(arrived));
    DeliveriesRun(s, arrived);
    forall i | 0 <= i < |ids|
      ensures entries[i].future in t.futures
           && t.futures[entries[i].future] == Outcome(replies[i], entries[i].failuresAsPayload)
    {
      assert forall x :: x in arrived <==> x in multiset(arrived);
      assert forall x :: x in messages <==> x in multiset(messages);
      OnlyReplyIsFirst<F>(arrived, ids[i], replies[i]);
      FirstReplyDecides(s, Deliveries<F>(arrived), ids[i], entries[i]);
    }
  }

  // ----- What a batch comes to

  /** What a batch's caller gets: a slot for each request, the error of one that failed, or the error of the timeout. */
  datatype BatchResult = Results(slots: seq<FutureState>) | Raised(error: string) | TimedOut

  /** The first recognised reply to `id` among the messages. */
  function ReplyTo(messages: seq<Payload>, id: string): Option<Payload> {
    if messages == [] then None
    else
      var n := |messages| - 1;
      match ReplyTo(messages[..n], id)
      case Some(m) => Some(m)
      case None => if messages[n].requestId == id && IsReply(messages[n]) then Some(messages[n]) else None
  }

  /** The error of the first request of the batch to fail. */
  function FirstFailure(ids: seq<string>, messages: seq<Payload>): Option<string> {
    if messages == [] then None
    else
      var n := |messages| - 1;
      match FirstFailure(ids, messages[..n])
      case Some(error) => Some(error)
      case None =>
        var m := messages[n];
        if m.requestId in ids && m.eventType == FAILURE && ReplyTo(messages[..n], m.requestId).None?
        then Some(ErrorText(m)) else None
  }

  /** What a batch comes to, given the messages that arrive before its caller goes on. */
  function BatchOutcome(ids: seq<string>, messages: seq<Payload>, returnExceptions: bool): BatchResult {
    var failure := FirstFailure(ids, messages);
    if !returnExceptions && failure.Some? then Raised(failure.value)
    else if forall i :: 0 <= i < |ids| ==> ReplyTo(messages, ids[i]).Some?
      then Results(seq(|ids|, i requires 0 <= i < |ids| && ReplyTo(messages, ids[i]).Some? =>
                                Outcome(ReplyTo(messages, ids[i]).value, false)))
    else TimedOut
  }

  lemma ReplyToMore(messages: seq<Payload>, m: Payload, id: string)
    ensures ReplyTo(messages + [m], id) ==
      if ReplyTo(messages, id).Some? then ReplyTo(messages, id)
      else if m.requestId == id && IsReply(m) then Some(m) else None
  {
    assert (messages + [m])[..|messages|] == messages;
  }

  lemma FirstFailureMore(ids: seq<string>, messages: seq<Payload>, m: Payload)
    ensures FirstFailure(ids, messages + [m]) ==
      if FirstFailure(ids, messages).Some? then FirstFailure(ids, messages)
      else if m.requestId in ids && m.eventType == FAILURE && ReplyTo(messages, m.requestId).None?
      then Some(ErrorText(m)) else None
  {
    assert (messages + [m])[..|messages|] == messages;
  }

  lemma {:induction false} OnlyReplyIs(messages: seq<Payload>, id: string, m: Payload)
    requires forall x :: x in messages && x.requestId == id && IsReply(x) ==> x == m
    requires m.requestId == id && IsReply(m)
    ensures ReplyTo(messages, id) == if m in messages then Some(m) else None
  {
    if messages != [] {
      var front := messages[..|messages| - 1];
      assert messages == front + [messages[|messages| - 1]];
      OnlyReplyIs(front, id, m);
    }
  }

  ghost predicate OnlyReplies(messages: seq<Payload>, ids: seq<string>, replies: seq<Payload>) {
    |ids| == |replies| && forall i :: 0 <= i < |ids| ==> OnlyReply(messages, ids[i], replies[i])
  }

  /** A failure in the batch was a failed reply to one of its requests, and a failed reply is a failure. */
  lemma {:induction false} FailureIsAReply(ids: seq<string>, messages: seq<Payload>) returns (m: Payload)
    requires FirstFailure(ids, messages).Some?
    ensures m in messages && m.requestId in ids && m.eventType == FAILURE
    ensures FirstFailure(ids, messages) == Some(ErrorText(m))
  {
    var n := |messages| - 1;
    assert messages == messages[..n] + [messages[n]];
    if FirstFailure(ids, messages[..n]).Some? {
      m := FailureIsAReply(ids, messages[..n]);
    } else {
      m := messages[n];
    }
  }

  lemma FailedReply(ids: seq<string>, replies: seq<Payload>, messages: seq<Payload>) returns (i: nat)
    requires OnlyReplies(messages, ids, replies) && FirstFailure(ids, messages).Some?
    ensures i < |ids| == |replies| && replies[i].eventType == FAILURE
    ensures FirstFailure(ids, messages) == Some(ErrorText(replies[i]))
  {
    var m := FailureIsAReply(ids, messages);
    i :| 0 <= i < |ids| && ids[i] == m.requestId;
    assert OnlyReply(messages, ids[i], replies[i]) && m == replies[i];
  }

  lemma {:induction false} FailedReplyIsAFailure(ids: seq<string>, messages: seq<Payload>, id: string)
    requires id in ids && ReplyTo(messages, id).Some? && ReplyTo(messages, id).value.eventType == FAILURE
    ensures FirstFailure(ids, messages).Some?
  {
    var n := |messages| - 1;
    if ReplyTo(messages[..n], id).Some? {
      FailedReplyIsAFailure(ids, messages[..n], id);
    }
  }

  /** When every request of a batch is answered, and none failed or failures are to be returned, the batch comes to the
      replies' outcomes in submission order, in whatever order they arrive. */
  lemma BatchInAnyOrder(ids: seq<string>, replies: seq<Payload>, messages: seq<Payload>, arrived: seq<Payload>,
                        returnExceptions: bool)
    requires OnlyReplies(messages, ids, replies) && multiset(arrived) == multiset(messages)
    requires returnExceptions || forall i :: 0 <= i < |ids| ==> replies[i].eventType != FAILURE
    ensures BatchOutcome(ids, arrived, returnExceptions) ==
      Results(seq(|ids|, i requires 0 <= i < |ids| == |replies| => Outcome(replies[i], false)))
  {
    SameMessages(messages, arrived, ids, replies);
    if !returnExceptions && FirstFailure(ids, arrived).Some? {
      var i := FailedReply(ids, replies, arrived);
    }
    forall i | 0 <= i < |ids| ensures ReplyTo(arrived, ids[i]) == Some(replies[i]) {
      OnlyReplyIs(arrived, ids[i], replies[i]);
    }
  }

  lemma SameMessages(messages: seq<Payload>, arrived: seq<Payload>, ids: seq<string>, replies: seq<Payload>)
    requires OnlyReplies(messages, ids, replies) && multiset(arrived) == multiset(messages)
    ensures OnlyReplies(arrived, ids, replies)
  {
    assert forall x :: x in arrived <==> x in multiset(arrived);
    assert forall x :: x in messages <==> x in multiset(messages);
    forall i | 0 <= i < |ids| ensures OnlyReply(arrived, ids[i], replies[i]) {
      assert OnlyReply(messages, ids[i], replies[i]);
    }
  }

  /** When failures are not to be returned and some request failed, the batch raises the error of a failed one. */
  lemma FailureIsRaised(ids: seq<string>, replies: seq<Payload>, messages: seq<Payload>, j: nat) returns (i: nat)
    requires OnlyReplies(messages, ids, replies) && j < |ids| && replies[j].eventType == FAILURE
    ensures i < |ids| == |replies| && replies[i].eventType == FAILURE
    ensures BatchOutcome(ids, messages, false) == Raised(ErrorText(replies[i]))
  {
    assert OnlyReply(messages, ids[j], replies[j]);
    OnlyReplyIs(messages, ids[j], replies[j]);
    FailedReplyIsAFailure(ids, messages, ids[j]);
    i := FailedReply(ids, replies, messages);
  }

  /** Which one depends on the order: the error of any that failed is raised when its reply arrives first. */
  lemma AnyFailureCanBeRaised(ids: seq<string>, replies: seq<Payload>, messages: seq<Payload>, i: nat)
    returns (arrived: seq<Payload>)
    requires OnlyReplies(messages, ids, replies) && i < |ids| && replies[i].eventType == FAILURE
    ensures multiset(arrived) == multiset(messages)
    ensures BatchOutcome(ids, arrived, false) == Raised(ErrorText(replies[i]))
  {
    assert OnlyReply(messages, ids[i], replies[i]);
    var k :| 0 <= k < |messages| && messages[k] == replies[i];
    var rest := messages[..k] + messages[k + 1..];
    arrived := [replies[i]] + rest;
    assert messages == messages[..k] + [messages[k]] + messages[k + 1..];
    FirstFailureMore(ids, [], replies[i]);
    assert [] + [replies[i]] == [replies[i]];
    FirstStays(ids, [replies[i]], rest);
  }

  lemma {:induction false} FirstStays(ids: seq<string>, first: seq<Payload>, rest: seq<Payload>)
    requires FirstFailure(ids, first).Some?
    ensures FirstFailure(ids, first + rest) == FirstFailure(ids, first)
    decreases rest
  {
    if rest == [] {
      assert first + rest == first;
    } else {
      var front := rest[..|rest| - 1];
      FirstStays(ids, first, front);
      FirstFailureMore(ids, first + front, rest[|rest| - 1]);
      assert first + rest == first + front + [rest[|rest| - 1]];
    }
  }

  /** Without a failure to raise, the batch times out exactly when some request of it got no recognised reply. */
  lemma TimesOutIff(ids: seq<string>, messages: seq<Payload>, returnExceptions: bool)
    requires returnExceptions || forall m :: m in messages && m.requestId in ids ==> m.eventType != FAILURE
    ensures BatchOutcome(ids, messages, returnExceptions) == TimedOut <==>
      exists id :: id in ids && forall m :: m in messages && m.requestId == id ==> m.eventType != SUCCESS && m.eventType != FAILURE
  {
    if !returnExceptions && FirstFailure(ids, messages).Some? { var m := FailureIsAReply(ids, messages); }
    forall id ensures ReplyTo(messages, id).None? <==>
      forall m :: m in messages && m.requestId == id ==> m.eventType != SUCCESS && m.eventType != FAILURE
    {
      RepliesIff(messages, id);
    }
    if id :| id in ids && ReplyTo(messages, id).None? {
      var i :| 0 <= i < |ids| && ids[i] == id;
      assert ReplyTo(messages, ids[i]).None?;
    }
  }

  lemma {:induction false} RepliesIff(messages: seq<Payload>, id: string)
    ensures ReplyTo(messages, id).None? <==> forall m :: m in messages && m.requestId == id ==> !IsReply(m)
  {
    if messages != [] {
      var n := |messages| - 1;
      assert messages == messages[..n] + [messages[n]];
      RepliesIff(messages[..n], id);
    }
  }

  /** A request of a batch that has seen `messages`: it waits, or its first reply has settled it. */
  ghost predicate Slot<F>(s: State<F>, messages: seq<Payload>, id: string, p: Pending<F>) {
    match ReplyTo(messages, id)
    case None => Awaits(s, id, p)
    case Some(m) => id !in s.pending && p.future in s.futures && s.futures[p.future] == Outcome(m, p.failuresAsPayload)
  }

  lemma SlotStep<F>(s: State<F>, messages: seq<Payload>, m: Payload, id: string, p: Pending<F>)
    requires Inv(s) && Slot(s, messages, id, p)
    ensures Slot(Delivered(s, m), messages + [m], id, p)
  {
    ReplyToMore(messages, m, id);
    DeliveredKeeps(s, m);
    if ReplyTo(messages, id).None? && !(m.requestId == id && IsReply(m)) {
      var a: Action<F> := Deliver(m);
      assert LeftAlone([a], id, p);
      StepSpares(s, a, id, p);
    }
  }

  /** A message that brings the first failure is the reply to some request; one that settles a request with an error,
      when none had failed before, brings it. */
  lemma FailureIsRejection(ids: seq<string>, messages: seq<Payload>, m: Payload)
    requires FirstFailure(ids, messages).None?
    ensures FirstFailure(ids, messages + [m]).Some? ==>
      exists i :: (0 <= i < |ids| && ReplyTo(messages + [m], ids[i]).Some?
                   && Outcome(ReplyTo(messages + [m], ids[i]).value, false).Rejected?)
    ensures forall i :: 0 <= i < |ids| && ReplyTo(messages + [m], ids[i]).Some? ==>
      var outcome := Outcome(ReplyTo(messages + [m], ids[i]).value, false);
      outcome.Rejected? ==> FirstFailure(ids, messages + [m]) == Some(outcome.error)
  {
    FirstFailureMore(ids, messages, m);
    if FirstFailure(ids, messages + [m]).Some? {
      var i :| 0 <= i < |ids| && ids[i] == m.requestId;
      ReplyToMore(messages, m, ids[i]);
      assert ReplyTo(messages + [m], ids[i]) == Some(m);
    }
    forall i | 0 <= i < |ids| && ReplyTo(messages + [m], ids[i]).Some? &&
               Outcome(ReplyTo(messages + [m], ids[i]).value, false).Rejected?
      ensures ReplyTo(messages + [m], ids[i]) == Some(m) && m.requestId == ids[i] && ReplyTo(messages, ids[i]).None?
    {
      ReplyToMore(messages, m, ids[i]);
      NoneFailedSoFar(ids, messages, ids[i]);
    }
  }

  lemma NoneFailedSoFar(ids: seq<string>, messages: seq<Payload>, id: string)
    requires FirstFailure(ids, messages).None? && id in ids
    ensures ReplyTo(messages, id).Some? ==> ReplyTo(messages, id).value.eventType != FAILURE
  {
    if ReplyTo(messages, id).Some? && ReplyTo(messages, id).value.eventType == FAILURE {
      FailedReplyIsAFailure(ids, messages, id);
    }
  }

  lemma {:induction false} NoRequestsNoFailure(messages: seq<Payload>)
    ensures FirstFailure([], messages) == None
  {
    if messages != [] { NoRequestsNoFailure(messages[..|messages| - 1]); }
  }
}
