/** The request client as the program keeps it: dictionaries updated in place and futures shared with waiters. */
module RequestClient {
  import opened Options
  import opened Sequences
  import opened RequestTracking

  class Future {
    var state: FutureState

    constructor ()
      ensures state == Waiting
    {
      state := Waiting;
    }

    /** Setting a result, an exception or a cancellation: only the first takes effect. */
    method Settle(outcome: FutureState)
      modifies this
      ensures state == Settled(old(state), outcome)
    {
      if state == Waiting {
        state := outcome;
      }
    }
  }

  class RequestClient {
    var pending: map<string, Pending<Future>>
    var order: seq<string>
    var abandoned: seq<string>
    ghost var made: set<Future>

    ghost function Futures(): map<Future, FutureState>
      reads this, made
    {
      map f | f in made :: f.state
    }

    ghost function Value(): State<Future>
      reads this, made
    {
      State(pending, order, abandoned, Futures())
    }

    /** The invariants of the step system. A waiter that cancels its own future keeps them (NextKeeps). */
    ghost predicate Valid()
      reads this, made
    {
      Inv(Value())
    }

    constructor ()
      ensures Valid() && Value() == Initial() && made == {}
    {
      pending, order, abandoned, made := map[], [], [], {};
    }

    method RememberAbandoned(id: string)
      modifies this`abandoned
      ensures abandoned == Remember(old(abandoned), id)
    {
      if id !in abandoned {
        abandoned := abandoned + [id];
      }
      if |abandoned| > REMEMBERED {
        abandoned := abandoned[1..];
      }
    }

    /** None stands for the error raised for an id that is already pending. */
    method TrackRequest(id: string, tag: string, failuresAsPayload: bool) returns (future: Future?)
      requires Valid()
      modifies this
      ensures Valid()
      ensures future == null <==> id in old(pending)
      ensures future == null ==> Value() == old(Value()) && made == old(made)
      ensures future != null ==> fresh(future) && made == old(made) + {future}
      ensures future != null ==> Value() == Tracked(old(Value()), id, tag, failuresAsPayload, future)
    {
      hide Inv;
      ghost var was := Value();
      if id in pending { return null; }
      var f := new Future();
      pending := pending[id := Pending(f, tag, failuresAsPayload)];
      order := order + [id];
      ghost var before := Futures();
      made := made + {f};
      assert Futures() == before[f := Waiting];
      TrackedKeeps(was, id, tag, failuresAsPayload, f);
      assert Value() == Tracked(was, id, tag, failuresAsPayload, f);
      future := f;
    }

    /** Takes an entry out of the pending requests and settles its future. */
    method Pop(id: string, outcome: FutureState)
      requires Valid() && id in pending && outcome != Waiting
      modifies this`pending, this`order, made
      ensures Valid() && made == old(made) && Value() == Popped(old(Value()), id, outcome)
    {
      var entry := pending[id];
      ghost var before := Futures();
      PoppedKeeps(Value(), id, outcome);
      hide NoLostAwaiter, Ordered;
      pending := pending - {id};
      order := RemoveFirst(order, id);
      entry.future.Settle(outcome);
      assert Futures() == RequestTracking.Settle(before, entry.future, outcome);
    }

    /** Stops waiting for a request: the reply, should it still come, is remembered as unwanted. */
    method Abandon(id: string, outcome: FutureState)
      requires Valid() && id in pending && outcome != Waiting
      modifies this, made
      ensures Valid() && made == old(made) && Value() == Abandoned(old(Value()), id, outcome)
    {
      hide Inv;
      ghost var was := Value();
      AbandonedKeeps(was, id, outcome);
      Pop(id, outcome);
      RememberAbandoned(id);
      assert Value() == Abandoned(was, id, outcome);
    }

    method DiscardRequest(id: string)
      requires Valid()
      modifies this, made
      ensures Valid() && made == old(made) && Value() == Discarded(old(Value()), id)
    {
      if id !in pending { return; }
      Abandon(id, Cancelled);
    }

    method IdsTagged(tag: string) returns (ids: seq<string>)
      requires Valid()
      ensures ids == Tagged(Value(), order, tag)
    {
      hide Tagged, Futures, NoDuplicates;
      ids := [];
      for i := 0 to |order|
        invariant ids + Tagged(Value(), order[i..], tag) == Tagged(Value(), order, tag)
      {
        assert order[i..][0] == order[i] && order[i..][1..] == order[i + 1..];
        TaggedStep(Value(), order[i..], tag);
        assert order[i] in order;
        if pending[order[i]].tag == tag {
          Assoc(ids, [order[i]], Tagged(Value(), order[i + 1..], tag));
          ids := ids + [order[i]];
        } else {
          Assoc(ids, [], Tagged(Value(), order[i + 1..], tag));
          assert ids + [] == ids;
        }
      }
      TaggedNone(Value(), tag);
      assert order[|order|..] == [];
    }

    method FailRequestsByTag(tag: string, error: string)
      requires Valid()
      modifies this, made
      ensures Valid() && made == old(made) && Value() == FailedByTag(old(Value()), tag, error)
    {
      hide FailedAll, Tagged, FailedByTag, Abandoned, NoDuplicates, Futures;
      ghost var before := Value();
      var ids := IdsTagged(tag);
      TaggedMembers(before, order, tag);
      FailedByTagIs(before, tag, error);
      for i := 0 to |ids|
        invariant Valid() && made == old(made)
        invariant forall k :: i <= k < |ids| ==> ids[k] in pending
        invariant FailedAll(Value(), ids[i..], error) == FailedAll(before, ids, error)
      {
        assert ids[i..][0] == ids[i] && ids[i..][1..] == ids[i + 1..];
        FailedAllStep(Value(), ids[i..], error);
        AbandonedPending(Value(), ids[i], Rejected(error));
        DistinctLater(ids, i);
        Abandon(ids[i], Rejected(error));
      }
      assert ids[|ids|..] == [];
      FailedAllNone(Value(), error);
    }

    /** The message filter: whether the message was a reply this client asked for. */
    method TryMatch(m: Payload) returns (claimed: bool)
      requires Valid()
      modifies this, made
      ensures Valid() && made == old(made)
      ensures claimed == Claims(old(Value()), m) && Value() == Delivered(old(Value()), m)
    {
      hide Inv;
      ghost var was := Value();
      DeliveredKeeps(was, m);
      var id := m.requestId;
      if id != "" && id in abandoned {
        abandoned := RemoveFirst(abandoned, id);
        assert Value() == Delivered(was, m);
        return true;
      }
      if id == "" || id !in pending { return false; }
      var entry := pending[id];
      if m.eventType == SUCCESS {
        Pop(id, Resolved(m));
        return true;
      }
      if m.eventType == FAILURE {
        if entry.failuresAsPayload {
          Pop(id, Resolved(m));
          return true;
        }
        Pop(id, Rejected(ErrorText(m)));
        return true;
      }
      return false;
    }

    /** The entries of a batch. */
    static function Entries(futures: seq<Future>): (entries: seq<Pending<Future>>)
      ensures |entries| == |futures| && forall i :: 0 <= i < |futures| ==> entries[i] == Pending(futures[i], "", false)
    {
      seq(|futures|, i requires 0 <= i < |futures| => Pending(futures[i], "", false))
    }

    /** One tracked request for each id of a batch. The ids are new and distinct, being freshly drawn. */
    method TrackBatch(ids: seq<string>) returns (futures: seq<Future>)
      requires Valid() && NoDuplicates(ids)
      requires forall id :: id in ids ==> id != "" && id !in pending && id !in abandoned
      modifies this
      ensures Valid() && |futures| == |ids| && forall f :: f in made ==> f in old(made) || fresh(f)
      ensures BatchAwaits(Value(), ids, Entries(futures))
    {
      hide Inv;
      futures := [];
      for k := 0 to |ids|
        invariant Valid() && |futures| == k && abandoned == old(abandoned)
        invariant forall f :: f in made ==> f in old(made) || fresh(f)
        invariant forall i :: k <= i < |ids| ==> ids[i] !in pending
        invariant forall i :: 0 <= i < k ==> Awaits(Value(), ids[i], Pending(futures[i], "", false))
      {
        var f := TrackRequest(ids[k], "", false);
        futures := futures + [f];
        assert ids[k] in ids;
      }
    }

    /** Every request of the batch has seen the messages. */
    ghost predicate Slots(messages: seq<Payload>, ids: seq<string>, futures: seq<Future>)
      reads this, made
    {
      |ids| == |futures| && forall i :: 0 <= i < |ids| ==> Slot(Value(), messages, ids[i], Entries(futures)[i])
    }

    lemma SlotState(messages: seq<Payload>, ids: seq<string>, futures: seq<Future>, i: nat)
      requires Valid() && Slots(messages, ids, futures) && i < |ids|
      ensures futures[i].state == match ReplyTo(messages, ids[i]) case None => Waiting case Some(m) => Outcome(m, false)
      ensures ReplyTo(messages, ids[i]).Some? ==> ids[i] !in pending
    {
      assert Slot(Value(), messages, ids[i], Entries(futures)[i]);
    }

    /** The error of the first future, in submission order, that has failed. */
    method FirstRejected(futures: seq<Future>) returns (error: Option<string>)
      ensures error.None? ==> forall i :: 0 <= i < |futures| ==> !futures[i].state.Rejected?
      ensures error.Some? ==> exists i :: 0 <= i < |futures| && futures[i].state == Rejected(error.value)
    {
      for i := 0 to |futures|
        invariant forall j :: 0 <= j < i ==> !futures[j].state.Rejected?
      {
        if futures[i].state.Rejected? { return Some(futures[i].state.error); }
      }
      return None;
    }

    /** The states of the futures in submission order, or None while some wait. */
    method Gathered(futures: seq<Future>) returns (slots: Option<seq<FutureState>>)
      ensures slots.None? <==> exists i :: 0 <= i < |futures| && futures[i].state == Waiting
      ensures slots.Some? ==>
        |slots.value| == |futures| && forall i :: 0 <= i < |futures| ==> slots.value[i] == futures[i].state
    {
      var states := [];
      for i := 0 to |futures|
        invariant |states| == i && forall j :: 0 <= j < i ==> states[j] == futures[j].state != Waiting
      {
        if futures[i].state == Waiting { return None; }
        states := states + [futures[i].state];
      }
      slots := Some(states);
    }

    method DiscardAll(ids: seq<string>)
      requires Valid()
      modifies this, made
      ensures Valid() && made == old(made) && forall id :: id in ids ==> id !in pending
    {
      hide Inv;
      for k := 0 to |ids|
        invariant Valid() && made == old(made) && forall j :: 0 <= j < k ==> ids[j] !in pending
      {
        ghost var was := Value();
        DiscardRequest(ids[k]);
        assert Value().pending == was.pending - {ids[k]};
      }
    }

    /** One more message reaches the client, and the batch's callbacks run. */
    method Receive(m: Payload, ids: seq<string>, futures: seq<Future>, failure: Option<string>,
                   ghost before: seq<Payload>) returns (failure': Option<string>)
      requires Valid() && Slots(before, ids, futures) && failure == FirstFailure(ids, before)
      modifies this, made
      ensures Valid() && made == old(made)
      ensures Slots(before + [m], ids, futures) && failure' == FirstFailure(ids, before + [m])
    {
      hide Inv, Slot, FirstFailure, ReplyTo;
      ghost var was, all := Value(), before + [m];
      var claimed := TryMatch(m);
      forall i | 0 <= i < |ids| ensures Slot(Value(), all, ids[i], Entries(futures)[i]) {
        SlotStep(was, before, m, ids[i], Entries(futures)[i]);
      }
      FirstFailureMore(ids, before, m);
      if failure.Some? { return failure; }
      failure' := FirstRejected(futures);
      forall i | 0 <= i < |ids| { SlotState(all, ids, futures, i); }
      assert Slots(all, ids, futures);
      FailureIsRejection(ids, before, m);
    }

    /** Tracks the requests of a batch, awaits what the messages bring, and gives up on what is left when one failed or
        the time is up. `messages` are those that arrive before the caller goes on. */
    method RequestBatch(ids: seq<string>, messages: seq<Payload>, returnExceptions: bool) returns (result: BatchResult)
      requires Valid() && NoDuplicates(ids)
      requires forall id :: id in ids ==> id != "" && id !in pending && id !in abandoned
      modifies this, made
      ensures Valid() && result == BatchOutcome(ids, messages, returnExceptions)
      ensures forall id :: id in ids ==> id !in pending
    {
      hide Inv, Slots, Awaits, FirstFailure, ReplyTo;
      NoRequestsNoFailure(messages);
      if ids == [] { return Results([]); }
      var futures := TrackBatch(ids);
      var failure: Option<string> := None;
      NothingSeen(ids, futures);
      for k := 0 to |messages|
        invariant Valid() && Slots(messages[..k], ids, futures) && failure == FirstFailure(ids, messages[..k])
        invariant forall f :: f in made ==> f in old(made) || fresh(f)
      {
        failure := Receive(messages[k], ids, futures, failure, messages[..k]);
        assert messages[..k] + [messages[k]] == messages[..k + 1];
      }
      assert messages[..|messages|] == messages;
      if !returnExceptions && failure.Some? {
        DiscardAll(ids);
        return Raised(failure.value);
      }
      forall i | 0 <= i < |ids| { SlotState(messages, ids, futures, i); }
      var slots := Gathered(futures);
      if slots.None? {
        DiscardAll(ids);
        return TimedOut;
      }
      result := Results(slots.value);
    }

    lemma NothingSeen(ids: seq<string>, futures: seq<Future>)
      requires BatchAwaits(Value(), ids, Entries(futures)) && |futures| == |ids|
      ensures Slots([], ids, futures) && FirstFailure(ids, []) == None
    {
    }
  }
}
