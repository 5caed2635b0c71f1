/** The part of a node's trait states that a save keeps: what differs from what the node's own code builds. */
module TraitStates {
  import opened Options
  import opened Sequences

  /** A trait's saved entry: everything but its state, and its state. */
  datatype Entry<!I(==), V> = Entry(identity: I, state: map<string, V>)

  // ----- Pairing

  function WithIdentity<I(==), V>(es: seq<Entry<I, V>>, x: I): seq<Entry<I, V>> {
    if es == [] then []
    else (if es[0].identity == x then [es[0]] else []) + WithIdentity(es[1..], x)
  }

  /** The entry of `built` that the current entry `i` is compared with: the n-th of its identity with the n-th. */
  function Counterpart<I(==), V>(built: seq<Entry<I, V>>, current: seq<Entry<I, V>>, i: nat): Option<Entry<I, V>>
    requires i < |current|
  {
    var x := current[i].identity;
    var same, before := WithIdentity(built, x), |WithIdentity(current[..i], x)|;
    if before < |same| then Some(same[before]) else None
  }

  function Differing<V(==)>(was: map<string, V>, now: map<string, V>): map<string, V> {
    map k | k in now && (k !in was || was[k] != now[k]) :: now[k]
  }

  /** What the save keeps of the current entry `i`. */
  function Kept<I(==), V(==)>(built: seq<Entry<I, V>>, current: seq<Entry<I, V>>, i: nat): Entry<I, V>
    requires i < |current|
  {
    match Counterpart(built, current, i)
    case None => current[i]
    case Some(was) => current[i].(state := Differing(was.state, current[i].state))
  }

  function Changed<I(==), V(==)>(built: seq<Entry<I, V>>, current: seq<Entry<I, V>>): seq<Entry<I, V>> {
    seq(|current|, i requires 0 <= i < |current| => Kept(built, current, i))
  }

  // ----- The loops

  lemma {:induction false} WithIdentityConcat<I, V>(a: seq<Entry<I, V>>, b: seq<Entry<I, V>>, x: I)
    ensures WithIdentity(a + b, x) == WithIdentity(a, x) + WithIdentity(b, x)
  {
    if a == [] {
      assert a + b == b;
    } else {
      assert (a + b)[0] == a[0] && (a + b)[1..] == a[1..] + b;
      WithIdentityConcat(a[1..], b, x);
      Assoc(if a[0].identity == x then [a[0]] else [], WithIdentity(a[1..], x), WithIdentity(b, x));
    }
  }

  /** Removing the first entry of an identity, as list removal by equality does. */
  lemma {:induction false} RemovedCounterpart<I, V>(es: seq<Entry<I, V>>, i: nat, x: I)
    requires i < |es| && forall j :: 0 <= j < i ==> es[j].identity != es[i].identity
    ensures var ofIt := WithIdentity(es, es[i].identity); ofIt != [] && ofIt[0] == es[i]
    ensures WithIdentity(RemoveFirst(es, es[i]), x) ==
      if x == es[i].identity then WithIdentity(es, x)[1..] else WithIdentity(es, x)
  {
    if i > 0 {
      assert es[1..][i - 1] == es[i];
      RemovedCounterpart(es[1..], i - 1, x);
      assert es[0].identity != es[i].identity;
      var rest := RemoveFirst(es[1..], es[i]);
      assert ([es[0]] + rest)[1..] == rest;
    }
  }

  lemma {:induction false} NoneWithIdentity<I, V>(es: seq<Entry<I, V>>, x: I)
    requires forall j :: 0 <= j < |es| ==> es[j].identity != x
    ensures WithIdentity(es, x) == []
  {
    if es != [] { NoneWithIdentity(es[1..], x); }
  }

  /** What is left after the first `n` were taken. */
  function Rest<T>(xs: seq<T>, n: nat): seq<T> {
    if n <= |xs| then xs[n..] else []
  }

  /** The first candidate of identity `x`, if any, was taken. */
  ghost predicate IsTaken<I(!new), V(!new)>(from: seq<Entry<I, V>>, left: seq<Entry<I, V>>, x: I) {
    forall y :: WithIdentity(left, y) == Rest(WithIdentity(from, y), if y == x then 1 else 0)
  }

  /** The first candidate of the identity, taken out of the list. */
  method TakeCounterpart<I(==, !new), V(==, !new)>(candidates: seq<Entry<I, V>>, x: I)
    returns (found: Option<Entry<I, V>>, left: seq<Entry<I, V>>)
    ensures var same := WithIdentity(candidates, x); found == if same == [] then None else Some(same[0])
    ensures IsTaken(candidates, left, x)
  {
    for i := 0 to |candidates|
      invariant forall j :: 0 <= j < i ==> candidates[j].identity != x
    {
      if candidates[i].identity == x {
        RemovedCounterpart(candidates, i, x);
        forall y ensures WithIdentity(RemoveFirst(candidates, candidates[i]), y) ==
                         Rest(WithIdentity(candidates, y), if y == x then 1 else 0)
        {
          RemovedCounterpart(candidates, i, y);
        }
        return Some(candidates[i]), RemoveFirst(candidates, candidates[i]);
      }
    }
    NoneWithIdentity(candidates, x);
    return None, candidates;
  }

  /** Taking one more of an identity, with one more entry of it seen. */
  lemma OneMoreTaken<I, V>(built: seq<Entry<I, V>>, current: seq<Entry<I, V>>, i: nat, x: I)
    requires i < |current|
    ensures var all, n := WithIdentity(built, x), |WithIdentity(current[..i], x)|;
      Rest(Rest(all, n), if x == current[i].identity then 1 else 0) == Rest(all, |WithIdentity(current[..i + 1], x)|)
  {
    assert current[..i + 1] == current[..i] + [current[i]];
    WithIdentityConcat(current[..i], [current[i]], x);
    assert WithIdentity([current[i]], x) == (if current[i].identity == x then [current[i]] else []) + WithIdentity([], x);
  }

  /** What is unmatched after the first `i` current entries: of each identity, those not taken yet. */
  ghost predicate IsUnmatched<I(!new), V(!new)>(built: seq<Entry<I, V>>, current: seq<Entry<I, V>>, i: nat,
                                left: seq<Entry<I, V>>)
    requires i <= |current|
  {
    forall x :: WithIdentity(left, x) == Rest(WithIdentity(built, x), |WithIdentity(current[..i], x)|)
  }

  lemma UnmatchedNext<I(!new), V(!new)>(built: seq<Entry<I, V>>, current: seq<Entry<I, V>>, i: nat,
                        from: seq<Entry<I, V>>,
                                        left: seq<Entry<I, V>>)
    requires i < |current| && IsUnmatched(built, current, i, from) && IsTaken(from, left, current[i].identity)
    ensures IsUnmatched(built, current, i + 1, left)
    ensures Counterpart(built, current, i) ==
      var same := WithIdentity(from, current[i].identity); if same == [] then None else Some(same[0])
  {
    forall x ensures WithIdentity(left, x) == Rest(WithIdentity(built, x), |WithIdentity(current[..i + 1], x)|) {
      OneMoreTaken(built, current, i, x);
    }
  }

  method ChangedTraitStates<I(==, !new), V(==, !new)>(built: seq<Entry<I, V>>, current: seq<Entry<I, V>>)
    returns (changed: seq<Entry<I, V>>)
    ensures changed == Changed(built, current)
  {
    hide IsUnmatched, IsTaken, WithIdentity, Counterpart;
    var unmatched := built;
    changed := [];
    NoneTaken(built, current);
    for i := 0 to |current|
      invariant |changed| == i && forall j :: 0 <= j < i ==> changed[j] == Kept(built, current, j)
      invariant IsUnmatched(built, current, i, unmatched)
    {
      var entry := current[i];
      var found, left := TakeCounterpart(unmatched, entry.identity);
      UnmatchedNext(built, current, i, unmatched, left);
      if found.None? {
        changed := changed + [entry];
      } else {
        changed := changed + [entry.(state := Differing(found.value.state, entry.state))];
      }
      unmatched := left;
    }
  }

  lemma NoneTaken<I(!new), V(!new)>(built: seq<Entry<I, V>>, current: seq<Entry<I, V>>)
    ensures IsUnmatched(built, current, 0, built)
  {
    assert current[..0] == [];
  }

  // ----- Overlaying what was kept

  /** Kept states laid over what the node builds, paired the same way. */
  function Overlaid<I(==), V>(built: seq<Entry<I, V>>, kept: seq<Entry<I, V>>): seq<Entry<I, V>> {
    seq(|kept|, i requires 0 <= i < |kept| =>
      match Counterpart(built, kept, i)
      case None => kept[i]
      case Some(was) => kept[i].(state := was.state + kept[i].state))
  }

  ghost predicate SameIdentities<I, V>(a: seq<Entry<I, V>>, b: seq<Entry<I, V>>) {
    |a| == |b| && forall i :: 0 <= i < |a| ==> a[i].identity == b[i].identity
  }

  lemma {:induction false} SameCounts<I, V>(a: seq<Entry<I, V>>, b: seq<Entry<I, V>>, x: I)
    requires SameIdentities(a, b)
    ensures |WithIdentity(a, x)| == |WithIdentity(b, x)|
  {
    if a != [] {
      assert SameIdentities(a[1..], b[1..]);
      SameCounts(a[1..], b[1..], x);
    }
  }

  lemma SameCounterparts<I, V>(built: seq<Entry<I, V>>, a: seq<Entry<I, V>>, b: seq<Entry<I, V>>, i: nat)
    requires SameIdentities(a, b) && i < |a|
    ensures Counterpart(built, a, i) == Counterpart(built, b, i)
  {
    SameCounts(a[..i], b[..i], a[i].identity);
  }

  /** Every key a paired built state has is still in the current one. */
  ghost predicate KeysRemain<I(!new), V(!new)>(built: seq<Entry<I, V>>, current: seq<Entry<I, V>>) {
    forall i :: 0 <= i < |current| && Counterpart(built, current, i).Some? ==>
      Counterpart(built, current, i).value.state.Keys <= current[i].state.Keys
  }

  lemma DifferingOver<V>(was: map<string, V>, now: map<string, V>)
    ensures was + Differing(was, now) == now <==> was.Keys <= now.Keys
  {
    var over := was + Differing(was, now);
    if was.Keys <= now.Keys {
      assert over.Keys == now.Keys;
      assert forall k :: k in now ==> over[k] == now[k];
    } else {
      var k :| k in was && k !in now;
      assert k in over;
    }
  }

  /** Overlaying what the save kept gives back the current states if and only if no paired state lost a key. */
  lemma OverlayRestoresIff<I(!new), V(!new)>(built: seq<Entry<I, V>>, current: seq<Entry<I, V>>)
    ensures Overlaid(built, Changed(built, current)) == current <==> KeysRemain(built, current)
  {
    var kept := Changed(built, current);
    var over := Overlaid(built, kept);
    assert SameIdentities(kept, current);
    forall i | 0 <= i < |current|
      ensures over[i] == current[i] <==> (Counterpart(built, current, i).Some? ==>
        Counterpart(built, current, i).value.state.Keys <= current[i].state.Keys)
    {
      SameCounterparts(built, kept, current, i);
      match Counterpart(built, current, i)
      case None =>
      case Some(was) => DifferingOver(was.state, current[i].state);
    }
    if KeysRemain(built, current) {
      assert over == current;
    } else {
      var i :| 0 <= i < |current| && over[i] != current[i];
    }
  }

  /** Nothing smaller would do: any entries that overlay to the current ones hold at least what the save keeps. */
  lemma KeepsLeast<I, V>(built: seq<Entry<I, V>>, current: seq<Entry<I, V>>, other: seq<Entry<I, V>>, i: nat,
                         key: string)
    requires Overlaid(built, other) == current && i < |current| && key in Changed(built, current)[i].state
    ensures key in other[i].state && other[i].state[key] == Changed(built, current)[i].state[key]
  {
    var over := Overlaid(built, other);
    assert |other| == |over|;
    forall j | 0 <= j < |other| ensures other[j].identity == current[j].identity {
      assert over[j].identity == other[j].identity;
    }
    SameCounterparts(built, other, current, i);
    assert over[i] == current[i];
  }

  /** No kept key has the value its counterpart has. */
  lemma KeepsOnlyChanges<I, V>(built: seq<Entry<I, V>>, current: seq<Entry<I, V>>, i: nat, key: string)
    requires i < |current|
    ensures key in Changed(built, current)[i].state <==>
      key in current[i].state && match Counterpart(built, current, i)
                                 case None => true
                                 case Some(was) => key !in was.state || was.state[key] != current[i].state[key]
  {
  }
}
