/** The connection store as the program keeps it, and the walks over it. */
module Connections {
  import opened Options
  import opened Reachability
  import opened ConnectionTable

  /** The set of visited names a caller hands to a walk, shared between calls. */
  class NameSet {
    var names: set<string>

    constructor ()
      ensures names == {}
    {
      names := {};
    }
  }

  ghost function NamesOf(nodes: seq<Node>): set<string> {
    set n | n in nodes :: n.name
  }

  lemma NamesOfNone()
    ensures NamesOf([]) == {}
  {
  }

  lemma NamesOfOne(n: Node)
    ensures NamesOf([n]) == {n.name}
  {
  }

  lemma NamesOfPopped(nodes: seq<Node>)
    requires nodes != []
    ensures NamesOf(nodes) == NamesOf(nodes[..|nodes| - 1]) + {nodes[|nodes| - 1].name}
  {
    assert nodes == nodes[..|nodes| - 1] + [nodes[|nodes| - 1]];
  }

  lemma NamesOfPushed(nodes: seq<Node>, n: Node, also: string)
    ensures NamesOf(nodes + [n]) + {also} == NamesOf(nodes) + {also} + {n.name}
  {
  }

  /** What a walk from `r` adds to the names `v0` it was handed: everything it reaches without entering `v0`. */
  ghost predicate Walked(es: set<(string, string)>, v0: set<string>, r: string, v1: set<string>) {
    if r in v0 then v1 == v0
    else forall m :: m in v1 <==> m in v0 || Reach(Avoiding(es, v0), r, m)
  }

  /** The targets of the edges out of the nodes the walk added. */
  ghost predicate CrossedTargets(es: set<(string, string)>, v0: set<string>, v1: set<string>, targets: set<string>) {
    forall m :: m in targets <==> exists a :: a in v1 - v0 && (a, m) in es
  }

  /** Part way through a walk: `v` is visited, the edges out of `open` are still to be followed, and `crossed`
      holds the targets of the edges followed so far. */
  ghost predicate WalkSoFar(es: set<(string, string)>, v0: set<string>, r: string,
                            v: set<string>, open: set<string>, crossed: set<string>) {
    && r !in v0 && v0 + {r} <= v && open <= v - v0
    && (forall m :: m in v - v0 ==> Reach(Avoiding(es, v0), r, m))
    && (forall a, b :: a in v - v0 - open && (a, b) in es ==> b in v && b in crossed)
    && (forall m :: m in crossed ==> exists a :: a in v - v0 && (a, m) in es)
  }

  lemma WalkSkips(es: set<(string, string)>, v0: set<string>, r: string)
    requires r in v0
    ensures Walked(es, v0, r, v0) && CrossedTargets(es, v0, v0, {})
  {
  }

  lemma WalkStarts(es: set<(string, string)>, v0: set<string>, r: string)
    requires r !in v0
    ensures WalkSoFar(es, v0, r, v0 + {r}, {r}, {})
  {
    ReachRefl(Avoiding(es, v0), r);
  }

  /** Crossing an edge out of an open node, to a node already visited or to a new one. */
  lemma WalkCrosses(es: set<(string, string)>, v0: set<string>, r: string,
                    v: set<string>, open: set<string>, crossed: set<string>, a: string, b: string)
    requires WalkSoFar(es, v0, r, v, open, crossed) && a in open && (a, b) in es
    ensures b in v ==> WalkSoFar(es, v0, r, v, open, crossed + {b})
    ensures b !in v ==> WalkSoFar(es, v0, r, v + {b}, open + {b}, crossed + {b})
  {
    if b !in v {
      assert (a, b) in Avoiding(es, v0);
      ReachStep(Avoiding(es, v0), r, a, b);
    }
  }

  /** A node all of whose edges have been followed is no longer open. */
  lemma WalkCloses(es: set<(string, string)>, v0: set<string>, r: string,
                   v: set<string>, open: set<string>, crossed: set<string>, rest: set<string>, a: string)
    requires WalkSoFar(es, v0, r, v, open, crossed) && open == rest + {a}
    requires Followed(es, a, v, crossed, {})
    ensures WalkSoFar(es, v0, r, v, rest, crossed)
  {
  }

  /** Every edge out of `a` has been followed, except perhaps those into `rest`. */
  ghost predicate Followed(es: set<(string, string)>, a: string, v: set<string>, crossed: set<string>,
                           rest: set<string>) {
    forall b :: (a, b) in es ==> b in rest || (b in v && b in crossed)
  }

  lemma AllToFollow(es: set<(string, string)>, a: string, v: set<string>, crossed: set<string>, targets: seq<Node>)
    requires forall b :: (a, b) in es ==> b in NamesOf(targets)
    ensures Followed(es, a, v, crossed, NamesOf(targets[0..]))
  {
    assert targets[0..] == targets;
  }

  lemma FollowedOneMore(es: set<(string, string)>, a: string, v: set<string>, crossed: set<string>,
                        targets: seq<Node>, i: nat)
    requires i < |targets| && Followed(es, a, v, crossed, NamesOf(targets[i..]))
    ensures Followed(es, a, v + {targets[i].name}, crossed + {targets[i].name}, NamesOf(targets[i + 1..]))
  {
    assert targets[i..] == [targets[i]] + targets[i + 1..];
  }

  lemma WalkEnds(es: set<(string, string)>, v0: set<string>, r: string, v: set<string>, crossed: set<string>)
    requires WalkSoFar(es, v0, r, v, {}, crossed)
    ensures Walked(es, v0, r, v) && CrossedTargets(es, v0, v, crossed)
  {
    forall m | Reach(Avoiding(es, v0), r, m) ensures m in v {
      assert Closed(Avoiding(es, v0), v - v0);
      ReachStaysIn(Avoiding(es, v0), v - v0, r, m);
    }
  }

  /** The connection `id` joins the two named ends. */
  ghost predicate Joined(connections: map<Id, Connection>, id: Id,
                         sourceNode: string, sourceParam: string, targetNode: string, targetParam: string)
  {
    && id in connections
    && SourceEnds(connections)[id] == (sourceNode, sourceParam)
    && TargetEnds(connections)[id] == (targetNode, targetParam)
  }

  /** Of the connections between the named ends, the one listed first. */
  ghost predicate FirstJoined(t: Table, id: Id, sourceNode: string, sourceParam: string, targetNode: string,
                              targetParam: string)
  {
    exists i :: IsFirstJoined(t, i, sourceNode, sourceParam, targetNode, targetParam)
                && Under(t.outgoing, sourceNode, sourceParam)[i] == id
  }

  ghost predicate IsFirstJoined(t: Table, i: int, sourceNode: string, sourceParam: string, targetNode: string,
                                targetParam: string)
  {
    var ids := Under(t.outgoing, sourceNode, sourceParam);
    && 0 <= i < |ids| && Joined(t.connections, ids[i], sourceNode, sourceParam, targetNode, targetParam)
    && forall k :: 0 <= k < i ==> !Joined(t.connections, ids[k], sourceNode, sourceParam, targetNode, targetParam)
  }

  /** What crossing an edge into a node does to its state. */
  function Staled(s: ResolutionState, crossed: bool): ResolutionState {
    if crossed && s == RESOLVED then UNRESOLVED else s
  }

  function StaledAll(states: map<string, ResolutionState>, crossed: set<string>): map<string, ResolutionState> {
    map n | n in states :: Staled(states[n], n in crossed)
  }

  /** Of the nodes across the edges exactly the RESOLVED ones become UNRESOLVED; no other state changes. */
  lemma StaledIs(states: map<string, ResolutionState>, crossed: set<string>)
    ensures StaledAll(states, crossed).Keys == states.Keys
    ensures forall n :: n in states ==>
      StaledAll(states, crossed)[n] == match states[n]
                                       case RESOLVED => if n in crossed then UNRESOLVED else RESOLVED
                                       case UNRESOLVED => UNRESOLVED
                                       case RESOLVING => RESOLVING
  {
  }

  lemma StaledNone(states: map<string, ResolutionState>)
    ensures StaledAll(states, {}) == states
  {
  }

  lemma StaledTwice(states: map<string, ResolutionState>, crossed: set<string>, n: string)
    ensures StaledAll(StaledAll(states, crossed), {n}) == StaledAll(states, crossed + {n})
  {
  }

  /** A further walk from a closed visited set leaves it closed, and adds what its root reaches. */
  lemma WalkedStaysClosed(es: set<(string, string)>, v0: set<string>, r: string, v1: set<string>)
    requires Closed(es, v0) && Walked(es, v0, r, v1)
    ensures Closed(es, v1)
    ensures forall m :: m in v1 <==> m in v0 || Reach(es, r, m)
  {
    forall m | Reach(es, r, m) ensures m in v1 {
      if r in v0 {
        ReachStaysIn(es, v0, r, m);
      } else {
        AvoidingClosed(es, v0, r, m);
      }
    }
    ReachRefl(es, r);
    forall m | m in v1 ensures m in v0 || Reach(es, r, m) {
      if m !in v0 { ReachMonotone(Avoiding(es, v0), es, r, m); }
    }
    forall a, b | a in v1 && (a, b) in es ensures b in v1 {
      if a !in v0 { ReachStep(es, r, a, b); }
    }
  }

  /** With one visited set shared by all roots, the results add up to what the roots reach in one or more edges,
      a root on a cycle included. */
  lemma NextRoot(es: set<(string, string)>, v0: set<string>, r: string, v1: set<string>,
                 before: set<string>, more: set<string>)
    requires Closed(es, v0) && Walked(es, v0, r, v1) && CrossedTargets(es, v0, v1, more)
    requires forall m :: m in before <==> exists a :: a in v0 && (a, m) in es
    ensures Closed(es, v1)
    ensures forall m :: m in before + more <==> exists a :: a in v1 && (a, m) in es
    ensures forall m :: m in before + more <==> m in before || ReachPlus(es, r, m)
  {
    WalkedStaysClosed(es, v0, r, v1);
    assert v0 <= v1;
    forall m ensures m in before + more <==> exists a :: a in v1 && (a, m) in es {
      if m in before {
        var a :| a in v0 && (a, m) in es;
      } else if a :| a in v1 && (a, m) in es {
        assert a in v1 - v0;
      }
    }
    forall m ensures m in before + more <==> m in before || ReachPlus(es, r, m) {
      if m in before + more && m !in before {
        var a :| a in v1 - v0 && (a, m) in es;
        ReachStep(es, r, a, m);
      } else if ReachPlus(es, r, m) {
        var c := PlusLast(es, r, m);
        assert c in v1;
      }
    }
  }

  /** Every edge out of `searched` leads to a visited node other than the target. */
  ghost predicate Searched(es: set<(string, string)>, searched: set<string>, v: set<string>, target: string) {
    forall a, b :: a in searched && (a, b) in es ==> b in v && b != target
  }

  lemma SearchedNone(es: set<(string, string)>, none: set<string>, v: set<string>, target: string)
    requires none == {}
    ensures Searched(es, none, v, target)
  {
  }

  lemma SearchedOneMore(es: set<(string, string)>, a: string, v: set<string>, w: set<string>, target: string,
                        targets: seq<Node>, i: nat)
    requires i < |targets| && Followed(es, a, v, v - {target}, NamesOf(targets[i..]))
    requires v <= w && targets[i].name in w && targets[i].name != target
    ensures Followed(es, a, w, w - {target}, NamesOf(targets[i + 1..]))
  {
    assert targets[i..] == [targets[i]] + targets[i + 1..];
  }

  /** Nodes searched earlier, nodes searched in a deeper call, and the start itself. */
  lemma SearchedTogether(es: set<(string, string)>, v0: set<string>, v: set<string>, w: set<string>, target: string,
                         except: set<string>)
    requires v0 <= v <= w
    requires Searched(es, v - v0 - except, v, target) && Searched(es, w - v, w, target)
    ensures Searched(es, w - v0 - except, w, target)
  {
  }

  lemma SearchedAll(es: set<(string, string)>, v0: set<string>, v: set<string>, target: string, a: string)
    requires Searched(es, v - v0 - {a}, v, target) && Followed(es, a, v, v - {target}, {})
    ensures Searched(es, v - v0, v, target)
  {
  }

  lemma SearchedMeansUnreachable(es: set<(string, string)>, v: set<string>, start: string, target: string)
    requires start in v && Searched(es, v, v, target)
    ensures !ReachPlus(es, start, target)
  {
    if ReachPlus(es, start, target) {
      var c := PlusLast(es, start, target);
      assert Closed(es, v);
      ReachStaysIn(es, v, start, c);
    }
  }

  class Connections {
    var connections: map<Id, Connection>
    var outgoing: Index
    var incoming: Index
    ghost const registry: map<string, Node>

    ghost function Value(): Table
      reads this
    {
      Table(connections, outgoing, incoming)
    }

    ghost predicate Valid()
      reads this
    {
      NamesMatch(registry) && WellFormed(registry, Value())
    }

    ghost predicate Registered(n: Node) {
      n.name in registry && registry[n.name] == n
    }

    constructor (ghost registry: map<string, Node>)
      requires NamesMatch(registry)
      ensures Valid() && Value() == EMPTY && this.registry == registry
    {
      connections, outgoing, incoming := map[], map[], map[];
      this.registry := registry;
    }

    /** `id` is the identity of the connection object made here, so no connection in the table has it. */
    method AddConnection(c: Connection, id: Id) returns (outcome: AddOutcome)
      requires Valid() && Typed(registry, c) && id !in connections
      modifies this
      ensures Valid()
      ensures outcome == AddVerdict(old(Value()), c)
      ensures Value() == if outcome == Added then WithConnection(old(Value()), id, c) else old(Value())
    {
      if OUTPUT !in c.sourceParameter.modes { return OutputNotAllowed; }
      if INPUT !in c.targetParameter.modes { return InputNotAllowed; }
      var sourceTaken := ControlOutput(c.sourceParameter) && Under(outgoing, c.source.name, c.sourceParameter.name) != [];
      var targetTaken := DataInput(c.targetParameter) && Under(incoming, c.target.name, c.targetParameter.name) != [];
      if sourceTaken || targetTaken { return AlreadyConnected; }
      AddKeepsWellFormed(registry, Value(), id, c);
      connections := connections[id := c];
      outgoing := Appended(outgoing, c.source.name, c.sourceParameter.name, id);
      incoming := Appended(incoming, c.target.name, c.targetParameter.name, id);
      outcome := Added;
    }

    method RemoveById(id: Id) returns (removed: bool)
      requires Valid()
      modifies this
      ensures Valid()
      ensures removed == (id in old(connections))
      ensures Value() == RemovedFrom(registry, old(Value()), id)
    {
      hide WellFormed, Dropped, CanDrop;
      if id !in connections { return false; }
      RemoveKeepsWellFormed(registry, Value(), id);
      var c := connections[id];
      outgoing, incoming, connections :=
        Dropped(outgoing, c.source.name, c.sourceParameter.name, id),
        Dropped(incoming, c.target.name, c.targetParameter.name, id),
        connections - {id};
      removed := true;
    }

    method FindConnection(sourceNode: string, sourceParam: string, targetNode: string, targetParam: string)
      returns (found: Option<Id>)
      requires Valid()
      ensures found.Some? ==> FirstJoined(Value(), found.value, sourceNode, sourceParam, targetNode, targetParam)
      ensures found.Some? ==> Joined(connections, found.value, sourceNode, sourceParam, targetNode, targetParam)
      ensures found.None? ==> forall id :: !Joined(connections, id, sourceNode, sourceParam, targetNode, targetParam)
    {
      var ids := Under(outgoing, sourceNode, sourceParam);
      for i := 0 to |ids|
        invariant forall k :: 0 <= k < i ==> !Joined(connections, ids[k], sourceNode, sourceParam, targetNode, targetParam)
      {
        assert ids[i] in Under(outgoing, sourceNode, sourceParam);
        var c := connections[ids[i]];
        if c.target.name == targetNode && c.targetParameter.name == targetParam {
          assert IsFirstJoined(Value(), i, sourceNode, sourceParam, targetNode, targetParam);
          return Some(ids[i]);
        }
      }
      found := None;
      forall id | id in connections && SourceEnds(connections)[id] == (sourceNode, sourceParam) ensures id in ids {
        assert id in Under(outgoing, sourceNode, sourceParam);
      }
    }

    method RemoveConnection(sourceNode: string, sourceParam: string, targetNode: string, targetParam: string)
      returns (removed: bool)
      requires Valid()
      modifies this
      ensures Valid()
      ensures removed <==> exists id :: Joined(old(connections), id, sourceNode, sourceParam, targetNode, targetParam)
      ensures removed ==> exists id :: FirstJoined(old(Value()), id, sourceNode, sourceParam, targetNode, targetParam)
                                    && Value() == RemovedFrom(registry, old(Value()), id)
      ensures !removed ==> Value() == old(Value())
    {
      var found := FindConnection(sourceNode, sourceParam, targetNode, targetParam);
      if found.None? { return false; }
      assert Joined(connections, found.value, sourceNode, sourceParam, targetNode, targetParam);
      removed := RemoveById(found.value);
    }

    /** The connections out of a node, whatever parameter they leave by. */
    method OutgoingIds(node: string) returns (ids: seq<Id>)
      requires Valid()
      ensures forall id :: id in ids <==> id in connections && connections[id].source.name == node
    {
      ids := [];
      if node !in outgoing {
        forall id | id in connections ensures connections[id].source.name != node {
          assert id in Under(outgoing, connections[id].source.name, connections[id].sourceParameter.name);
        }
        return;
      }
      var todo := outgoing[node].Keys;
      while todo != {}
        invariant todo <= outgoing[node].Keys
        invariant forall id :: id in ids <==>
          id in connections && connections[id].source.name == node && connections[id].sourceParameter.name in outgoing[node]
          && connections[id].sourceParameter.name !in todo
      {
        var p :| p in todo;
        assert outgoing[node][p] == Under(outgoing, node, p);
        forall id ensures id in ids + outgoing[node][p] <==>
          id in connections && connections[id].source.name == node && connections[id].sourceParameter.name in outgoing[node]
          && connections[id].sourceParameter.name !in todo - {p}
        {
          assert id in Under(outgoing, node, p) <==> id in connections && SourceEnds(connections)[id] == (node, p);
        }
        ids := ids + outgoing[node][p];
        todo := todo - {p};
      }
      forall id | id in connections && connections[id].source.name == node
        ensures connections[id].sourceParameter.name in outgoing[node]
      {
        assert id in Under(outgoing, node, connections[id].sourceParameter.name);
      }
    }

    /** The nodes at the far end of a node's data connections. */
    method DataTargets(node: string) returns (targets: seq<Node>)
      requires Valid()
      ensures forall n :: n in targets ==> Registered(n) && (node, n.name) in DataEdges(Value())
      ensures forall b :: (node, b) in DataEdges(Value()) ==> b in NamesOf(targets)
    {
      var ids := OutgoingIds(node);
      targets := [];
      for i := 0 to |ids|
        invariant forall n :: n in targets ==> Registered(n) && (node, n.name) in DataEdges(Value())
        invariant forall k :: 0 <= k < i && CarriesData(connections[ids[k]]) ==> connections[ids[k]].target in targets
      {
        assert ids[i] in ids;
        var c := connections[ids[i]];
        if CarriesData(c) {
          targets := targets + [c.target];
        }
      }
      forall b | (node, b) in DataEdges(Value()) ensures b in NamesOf(targets) {
        var id :| id in connections && CarriesData(connections[id])
               && connections[id].source.name == node && connections[id].target.name == b;
        assert id in ids;
      }
    }

    /** The part the two data walks share: a target not yet visited is marked visited and left to be walked. */
    method Visit(target: Node, visited: NameSet, pending: seq<Node>, ghost current: string,
                 ghost es: set<(string, string)>, ghost v0: set<string>, ghost r: string, ghost crossed: set<string>)
      returns (pending': seq<Node>)
      requires Registered(target) && (current, target.name) in es
      requires forall n :: n in pending ==> Registered(n)
      requires WalkSoFar(es, v0, r, visited.names, NamesOf(pending) + {current}, crossed)
      modifies visited
      ensures forall n :: n in pending' ==> Registered(n)
      ensures WalkSoFar(es, v0, r, visited.names, NamesOf(pending') + {current}, crossed + {target.name})
      ensures visited.names == old(visited.names) + {target.name} && States() == old(States())
      ensures Left(registry.Keys, visited.names) + |pending'| <= Left(registry.Keys, old(visited.names)) + |pending|
    {
      hide WalkSoFar, NamesOf, Left;
      WalkCrosses(es, v0, r, visited.names, NamesOf(pending) + {current}, crossed, current, target.name);
      if target.name in visited.names {
        assert visited.names + {target.name} == visited.names;
        return pending;
      }
      Shrinks(registry.Keys, visited.names, visited.names + {target.name}, target.name);
      visited.names := visited.names + {target.name};
      NamesOfPushed(pending, target, current);
      pending' := pending + [target];
    }

    method CollectDownstreamDataNodes(node: Node, visited: NameSet) returns (downstream: set<string>)
      requires Valid() && Registered(node)
      modifies visited
      ensures Walked(DataEdges(Value()), old(visited.names), node.name, visited.names)
      ensures CrossedTargets(DataEdges(Value()), old(visited.names), visited.names, downstream)
    {
      hide NamesMatch, WellFormed, DataEdges, Walked, CrossedTargets, WalkSoFar, Followed, NamesOf, Valid, Left;
      ghost var es, v0, r := DataEdges(Value()), visited.names, node.name;
      downstream := {};
      if node.name in visited.names {
        WalkSkips(es, v0, r);
        return;
      }
      visited.names := visited.names + {node.name};
      var pending := [node];
      NamesOfOne(node);
      WalkStarts(es, v0, r);
      while pending != []
        invariant forall n :: n in pending ==> Registered(n)
        invariant WalkSoFar(es, v0, r, visited.names, NamesOf(pending), downstream)
        decreases Left(registry.Keys, visited.names) + |pending|
      {
        var current := pending[|pending| - 1];
        NamesOfPopped(pending);
        pending := pending[..|pending| - 1];
        var targets := DataTargets(current.name);
        AllToFollow(es, current.name, visited.names, downstream, targets);
        ghost var bound := Left(registry.Keys, visited.names) + |pending|;
        for i := 0 to |targets|
          invariant forall n :: n in pending ==> Registered(n)
          invariant WalkSoFar(es, v0, r, visited.names, NamesOf(pending) + {current.name}, downstream)
          invariant Followed(es, current.name, visited.names, downstream, NamesOf(targets[i..]))
          invariant Left(registry.Keys, visited.names) + |pending| <= bound
        {
          var target := targets[i];
          assert target in targets;
          FollowedOneMore(es, current.name, visited.names, downstream, targets, i);
          pending := Visit(target, visited, pending, current.name, es, v0, r, downstream);
          downstream := downstream + {target.name};
        }
        NamesOfNone();
        assert targets[|targets|..] == [];
        WalkCloses(es, v0, r, visited.names, NamesOf(pending) + {current.name}, downstream, NamesOf(pending),
                   current.name);
      }
      NamesOfNone();
      WalkEnds(es, v0, r, visited.names, downstream);
    }

    ghost function States(): map<string, ResolutionState>
      reads registry.Values
    {
      map n | n in registry :: registry[n].state
    }

    method MarkStale(target: Node)
      requires Valid() && Registered(target)
      modifies registry.Values
      ensures States() == StaledAll(old(States()), {target.name})
    {
      hide WellFormed;
      if target.state == RESOLVED {
        target.state := UNRESOLVED;
      }
    }

    /** Every RESOLVED node at the far end of an edge the walk crosses becomes UNRESOLVED; no other state changes. */
    method UnresolveFutureNodes(node: Node, visited: NameSet) returns (ghost crossed: set<string>)
      requires Valid() && Registered(node)
      modifies visited, registry.Values
      ensures Walked(DataEdges(Value()), old(visited.names), node.name, visited.names)
      ensures CrossedTargets(DataEdges(Value()), old(visited.names), visited.names, crossed)
      ensures States() == StaledAll(old(States()), crossed)
    {
      hide NamesMatch, WellFormed, DataEdges, Walked, CrossedTargets, WalkSoFar, Followed, NamesOf, Valid, Left,
           StaledAll, States;
      ghost var es, v0, r, states0 := DataEdges(Value()), visited.names, node.name, States();
      crossed := {};
      StaledNone(states0);
      if node.name in visited.names {
        WalkSkips(es, v0, r);
        return;
      }
      visited.names := visited.names + {node.name};
      var pending := [node];
      NamesOfOne(node);
      WalkStarts(es, v0, r);
      while pending != []
        invariant forall n :: n in pending ==> Registered(n)
        invariant WalkSoFar(es, v0, r, visited.names, NamesOf(pending), crossed)
        invariant States() == StaledAll(states0, crossed)
        decreases Left(registry.Keys, visited.names) + |pending|
      {
        var current := pending[|pending| - 1];
        NamesOfPopped(pending);
        pending := pending[..|pending| - 1];
        var targets := DataTargets(current.name);
        AllToFollow(es, current.name, visited.names, crossed, targets);
        ghost var bound := Left(registry.Keys, visited.names) + |pending|;
        for i := 0 to |targets|
          invariant forall n :: n in pending ==> Registered(n)
          invariant WalkSoFar(es, v0, r, visited.names, NamesOf(pending) + {current.name}, crossed)
          invariant States() == StaledAll(states0, crossed)
          invariant Followed(es, current.name, visited.names, crossed, NamesOf(targets[i..]))
          invariant Left(registry.Keys, visited.names) + |pending| <= bound
        {
          var target := targets[i];
          assert target in targets;
          MarkStale(target);
          StaledTwice(states0, crossed, target.name);
          FollowedOneMore(es, current.name, visited.names, crossed, targets, i);
          pending := Visit(target, visited, pending, current.name, es, v0, r, crossed);
          crossed := crossed + {target.name};
        }
        NamesOfNone();
        assert targets[|targets|..] == [];
        WalkCloses(es, v0, r, visited.names, NamesOf(pending) + {current.name}, crossed, NamesOf(pending),
                   current.name);
      }
      NamesOfNone();
      WalkEnds(es, v0, r, visited.names, crossed);
    }

    /** The nodes at the far end of a node's control connections. */
    method ControlTargets(node: Node) returns (targets: seq<Node>)
      requires Valid() && Registered(node)
      ensures forall n :: n in targets ==> Registered(n) && (node.name, n.name) in ControlEdges(Value())
      ensures forall b :: (node.name, b) in ControlEdges(Value()) ==> b in NamesOf(targets)
    {
      var ids := OutgoingIds(node.name);
      targets := [];
      for i := 0 to |ids|
        invariant forall n :: n in targets ==> Registered(n) && (node.name, n.name) in ControlEdges(Value())
        invariant forall k :: 0 <= k < i && CarriesControl(connections[ids[k]]) ==> connections[ids[k]].target in targets
      {
        assert ids[i] in ids;
        var c := connections[ids[i]];
        if CarriesControl(c) {
          targets := targets + [c.target];
        }
      }
      forall b | (node.name, b) in ControlEdges(Value()) ensures b in NamesOf(targets) {
        var id :| id in connections && CarriesControl(connections[id])
               && connections[id].source.name == node.name && connections[id].target.name == b;
        assert id in ids;
      }
    }

    /** The search with the visited names handed down the recursion. Finding nothing means that every node
        added to them has been searched. */
    method SearchForward(start: Node, target: string, visited: NameSet) returns (found: bool)
      requires Valid() && Registered(start)
      modifies visited
      ensures old(visited.names) <= visited.names
      ensures found ==> ReachPlus(ControlEdges(Value()), start.name, target)
      ensures !found ==> start.name in visited.names
      ensures !found ==> Searched(ControlEdges(Value()), visited.names - old(visited.names), visited.names, target)
      decreases Left(registry.Keys, visited.names)
    {
      hide NamesMatch, WellFormed, ControlEdges, ReachPlus, Reach, Searched, Followed, NamesOf, Valid, Left;
      ghost var es, v0 := ControlEdges(Value()), visited.names;
      SearchedNone(es, v0 - v0, v0, target);
      if start.name in visited.names { return false; }
      Shrinks(registry.Keys, v0, v0 + {start.name}, start.name);
      visited.names := visited.names + {start.name};
      SearchedNone(es, visited.names - v0 - {start.name}, visited.names, target);
      var targets := ControlTargets(start);
      AllToFollow(es, start.name, visited.names, visited.names - {target}, targets);
      for i := 0 to |targets|
        invariant v0 + {start.name} <= visited.names
        invariant Searched(es, visited.names - v0 - {start.name}, visited.names, target)
        invariant Followed(es, start.name, visited.names, visited.names - {target}, NamesOf(targets[i..]))
        invariant Left(registry.Keys, visited.names) < Left(registry.Keys, v0)
      {
        var next := targets[i];
        assert next in targets;
        if next.name == target {
          ReachEdge(es, start.name, target);
          return true;
        }
        ghost var v1 := visited.names;
        var deeper := SearchForward(next, target, visited);
        if deeper {
          ReachEdge(es, start.name, next.name);
          ReachThenPlus(es, start.name, next.name, target);
          return true;
        }
        NoMoreLeft(registry.Keys, v1, visited.names);
        SearchedTogether(es, v0, v1, visited.names, target, {start.name});
        SearchedOneMore(es, start.name, v1, visited.names, target, targets, i);
      }
      NamesOfNone();
      assert targets[|targets|..] == [];
      SearchedAll(es, v0, visited.names, target, start.name);
      found := false;
    }

    /** Called without a visited set, the search answers exactly whether control flows from `start` to `target`. */
    method IsNodeInForwardControlPath(start: Node, target: Node) returns (found: bool)
      requires Valid() && Registered(start)
      ensures found <==> ReachPlus(ControlEdges(Value()), start.name, target.name)
    {
      var visited := new NameSet();
      found := SearchForward(start, target.name, visited);
      if !found {
        SearchedMeansUnreachable(ControlEdges(Value()), visited.names, start.name, target.name);
      }
    }

    /** One visited set shared by the walks from every root. */
    method CollectFromRoots(roots: seq<Node>) returns (downstream: set<string>)
      requires Valid() && forall n :: n in roots ==> Registered(n)
      ensures forall m :: m in downstream <==> exists i :: 0 <= i < |roots| && ReachPlus(DataEdges(Value()), roots[i].name, m)
    {
      hide NamesMatch, WellFormed, DataEdges, Walked, CrossedTargets, ReachPlus, Reach;
      var visited := new NameSet();
      downstream := {};
      ghost var es := DataEdges(Value());
      for k := 0 to |roots|
        invariant Closed(es, visited.names)
        invariant forall m :: m in downstream <==> exists a :: a in visited.names && (a, m) in es
        invariant forall m :: m in downstream <==> exists i :: 0 <= i < k && ReachPlus(es, roots[i].name, m)
      {
        ghost var v0 := visited.names;
        assert roots[k] in roots;
        var more := CollectDownstreamDataNodes(roots[k], visited);
        NextRoot(es, v0, roots[k].name, visited.names, downstream, more);
        downstream := downstream + more;
      }
    }
  }
}
