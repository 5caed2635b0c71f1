/** The connection table and its two indexes as values, the operations on them, and what every
    sequence of operations keeps. */
module ConnectionTable {
  import opened Options
  import opened Reachability
  import opened Sequences

  const CONTROL_TYPE := "parametercontroltype"

  datatype Mode = INPUT | OUTPUT | PROPERTY

  datatype ResolutionState = UNRESOLVED | RESOLVING | RESOLVED

  datatype Parameter = Parameter(name: string, outputType: string, inputTypes: seq<string>, modes: set<Mode>)

  /** A node keeps its name and parameters for good; only its resolution state changes. */
  class Node {
    const name: string
    const parameters: map<string, Parameter>
    var state: ResolutionState

    constructor (name: string, parameters: map<string, Parameter>)
      ensures this.name == name && this.parameters == parameters && state == UNRESOLVED
    {
      this.name, this.parameters, this.state := name, parameters, UNRESOLVED;
    }
  }

  datatype Connection = Connection(source: Node, sourceParameter: Parameter,
                                   target: Node, targetParameter: Parameter, internal: bool)

  /** Stands for the identity of a connection object. */
  type Id = nat

  type Index = map<string, map<string, seq<Id>>>

  datatype Table = Table(connections: map<Id, Connection>, outgoing: Index, incoming: Index)

  const EMPTY := Table(map[], map[], map[])

  // ----- The nested indexes

  function Under(ix: Index, node: string, param: string): seq<Id> {
    if node in ix && param in ix[node] then ix[node][param] else []
  }

  function Appended(ix: Index, node: string, param: string, id: Id): Index {
    var inner := if node in ix then ix[node] else map[];
    ix[node := inner[param := Under(ix, node, param) + [id]]]
  }

  predicate CanDrop(ix: Index, node: string, param: string) {
    node in ix && param in ix[node]
  }

  /** `id` leaves its list; a list and then a map left empty go too. */
  function Dropped(ix: Index, node: string, param: string, id: Id): Index
    requires CanDrop(ix, node, param)
  {
    var ids := RemoveFirst(ix[node][param], id);
    if ids != [] then ix[node := ix[node][param := ids]]
    else
      var inner := ix[node] - {param};
      if inner == map[] then ix - {node} else ix[node := inner]
  }

  ghost predicate NothingEmpty(ix: Index) {
    forall n :: n in ix ==> ix[n] != map[] && forall p :: p in ix[n] ==> ix[n][p] != []
  }

  lemma AppendedUnder(ix: Index, node: string, param: string, id: Id, n: string, p: string)
    ensures Under(Appended(ix, node, param, id), n, p) ==
      (if n == node && p == param then Under(ix, node, param) + [id] else Under(ix, n, p))
  {
  }

  lemma AppendedNotEmpty(ix: Index, node: string, param: string, id: Id)
    requires NothingEmpty(ix)
    ensures NothingEmpty(Appended(ix, node, param, id))
  {
    var inner := if node in ix then ix[node] else map[];
    assert param in inner[param := Under(ix, node, param) + [id]];
  }

  lemma DroppedUnder(ix: Index, node: string, param: string, id: Id, n: string, p: string)
    requires NothingEmpty(ix) && node in ix && param in ix[node]
    ensures Under(Dropped(ix, node, param, id), n, p) ==
      (if n == node && p == param then RemoveFirst(Under(ix, node, param), id) else Under(ix, n, p))
  {
    var ids := RemoveFirst(ix[node][param], id);
    var inner := ix[node] - {param};
    if ids == [] && n == node && p in ix[node] && p != param {
      assert p in inner;
    }
  }

  lemma DroppedNotEmpty(ix: Index, node: string, param: string, id: Id)
    requires NothingEmpty(ix) && node in ix && param in ix[node]
    ensures NothingEmpty(Dropped(ix, node, param, id))
  {
    var ids := RemoveFirst(ix[node][param], id);
    var inner := ix[node] - {param};
    if ids != [] {
      var changed := ix[node][param := ids];
      assert param in changed;
      assert forall p :: p in changed ==> changed[p] != [];
    }
  }

  /** An index in which nothing is empty is determined by the lists it holds. */
  lemma SameIndex(ix: Index, jx: Index)
    requires NothingEmpty(ix) && NothingEmpty(jx)
    requires forall n, p :: Under(ix, n, p) == Under(jx, n, p)
    ensures ix == jx
  {
    SameKeys(ix, jx);
    SameKeys(jx, ix);
    forall n | n in ix ensures ix[n] == jx[n] {
      forall p | p in ix[n] || p in jx[n] ensures p in ix[n] && p in jx[n] && ix[n][p] == jx[n][p] {
        assert Under(ix, n, p) == Under(jx, n, p);
      }
      assert ix[n].Keys == jx[n].Keys;
    }
  }

  lemma SameKeys(ix: Index, jx: Index)
    requires NothingEmpty(ix)
    requires forall n, p :: Under(ix, n, p) == Under(jx, n, p)
    ensures ix.Keys <= jx.Keys
  {
    forall n | n in ix ensures n in jx {
      var p :| p in ix[n];
      assert Under(ix, n, p) == Under(jx, n, p);
    }
  }

  /** Appending a new id and dropping it again gives the index back exactly. */
  lemma DropUndoesAppend(ix: Index, node: string, param: string, id: Id)
    requires NothingEmpty(ix) && id !in Under(ix, node, param)
    ensures Dropped(Appended(ix, node, param, id), node, param, id) == ix
  {
    var jx := Appended(ix, node, param, id);
    AppendedNotEmpty(ix, node, param, id);
    DroppedNotEmpty(jx, node, param, id);
    RemoveFirstUndoesAppend(Under(ix, node, param), id);
    forall n, p ensures Under(Dropped(jx, node, param, id), n, p) == Under(ix, n, p) {
      AppendedUnder(ix, node, param, id, n, p);
      DroppedUnder(jx, node, param, id, n, p);
    }
    SameIndex(Dropped(jx, node, param, id), ix);
  }

  /** The index lists each id of `ends` exactly once, under its own end, and nothing else. */
  ghost predicate Agrees(ix: Index, ends: map<Id, (string, string)>) {
    && NothingEmpty(ix)
    && (forall n, p :: NoDuplicates(Under(ix, n, p)))
    && (forall n, p, id {:trigger id in Under(ix, n, p)} :: id in Under(ix, n, p) <==> id in ends && ends[id] == (n, p))
  }

  lemma AppendAgrees(ix: Index, ends: map<Id, (string, string)>, id: Id, node: string, param: string)
    requires Agrees(ix, ends) && id !in ends
    ensures Agrees(Appended(ix, node, param, id), ends[id := (node, param)])
  {
    var jx := Appended(ix, node, param, id);
    AppendedNotEmpty(ix, node, param, id);
    assert id !in Under(ix, node, param);
    forall n, p ensures NoDuplicates(Under(jx, n, p)) {
      AppendedUnder(ix, node, param, id, n, p);
    }
    forall n, p, x ensures x in Under(jx, n, p) <==>
      x in ends[id := (node, param)] && ends[id := (node, param)][x] == (n, p)
    {
      AppendedUnder(ix, node, param, id, n, p);
      assert x in Under(ix, n, p) <==> x in ends && ends[x] == (n, p);
    }
  }

  lemma DropAgrees(ix: Index, ends: map<Id, (string, string)>, id: Id, node: string, param: string)
    requires Agrees(ix, ends) && id in ends && ends[id] == (node, param)
    ensures CanDrop(ix, node, param)
    ensures Agrees(Dropped(ix, node, param, id), ends - {id})
  {
    assert id in Under(ix, node, param);
    var jx := Dropped(ix, node, param, id);
    DroppedNotEmpty(ix, node, param, id);
    forall n, p ensures NoDuplicates(Under(jx, n, p)) {
      DroppedUnder(ix, node, param, id, n, p);
      RemoveFirstKeepsDistinct(Under(ix, node, param), id);
    }
    forall n, p, x {:trigger x in Under(jx, n, p)}
      ensures x in Under(jx, n, p) <==> x in ends - {id} && (ends - {id})[x] == (n, p)
    {
      DropAgreesAt(ix, ends, id, node, param, n, p, x);
    }
  }

  lemma DropAgreesAt(ix: Index, ends: map<Id, (string, string)>, id: Id, node: string, param: string,
                     n: string, p: string, x: Id)
    requires Agrees(ix, ends) && id in ends && ends[id] == (node, param) && CanDrop(ix, node, param)
    ensures x in Under(Dropped(ix, node, param, id), n, p) <==> x in ends - {id} && ends[x] == (n, p)
  {
    DroppedUnder(ix, node, param, id, n, p);
    RemoveFirstMembers(Under(ix, node, param), id, x);
    assert x in Under(ix, n, p) <==> x in ends && ends[x] == (n, p);
    assert id in Under(ix, n, p) <==> ends[id] == (n, p);
  }

  // ----- The rules

  predicate ControlOutput(p: Parameter) {
    p.outputType == CONTROL_TYPE
  }

  predicate DataInput(p: Parameter) {
    CONTROL_TYPE !in p.inputTypes
  }

  predicate SourceRestricted(t: Table, node: string, p: Parameter) {
    ControlOutput(p) && Under(t.outgoing, node, p.name) != []
  }

  predicate TargetRestricted(t: Table, node: string, p: Parameter) {
    DataInput(p) && Under(t.incoming, node, p.name) != []
  }

  datatype AddOutcome = Added | OutputNotAllowed | InputNotAllowed | AlreadyConnected

  function AddVerdict(t: Table, c: Connection): AddOutcome {
    if OUTPUT !in c.sourceParameter.modes then OutputNotAllowed
    else if INPUT !in c.targetParameter.modes then InputNotAllowed
    else if SourceRestricted(t, c.source.name, c.sourceParameter)
         || TargetRestricted(t, c.target.name, c.targetParameter) then AlreadyConnected
    else Added
  }

  function WithConnection(t: Table, id: Id, c: Connection): Table {
    Table(t.connections[id := c],
          Appended(t.outgoing, c.source.name, c.sourceParameter.name, id),
          Appended(t.incoming, c.target.name, c.targetParameter.name, id))
  }

  /** Both indexes have a list at the ends of connection `id`. */
  predicate CanRemove(t: Table, id: Id) {
    && id in t.connections
    && CanDrop(t.outgoing, t.connections[id].source.name, t.connections[id].sourceParameter.name)
    && CanDrop(t.incoming, t.connections[id].target.name, t.connections[id].targetParameter.name)
  }

  function WithoutConnection(t: Table, id: Id): Table
    requires CanRemove(t, id)
  {
    var c := t.connections[id];
    Table(t.connections - {id},
          Dropped(t.outgoing, c.source.name, c.sourceParameter.name, id),
          Dropped(t.incoming, c.target.name, c.targetParameter.name, id))
  }

  /** What is refused and why, said of the connections there are: a control output leads to one place only, and a data
      input comes from one. */
  lemma RefusedIff(registry: map<string, Node>, t: Table, c: Connection)
    requires WellFormed(registry, t) && Typed(registry, c)
    ensures AddVerdict(t, c) == OutputNotAllowed <==> OUTPUT !in c.sourceParameter.modes
    ensures AddVerdict(t, c) == InputNotAllowed <==> OUTPUT in c.sourceParameter.modes && INPUT !in c.targetParameter.modes
    ensures AddVerdict(t, c) == AlreadyConnected <==>
      && OUTPUT in c.sourceParameter.modes && INPUT in c.targetParameter.modes
      && exists id :: id in t.connections && (
           (c.sourceParameter.outputType == CONTROL_TYPE
            && SourceEnds(t.connections)[id] == (c.source.name, c.sourceParameter.name))
           || (CONTROL_TYPE !in c.targetParameter.inputTypes
               && TargetEnds(t.connections)[id] == (c.target.name, c.targetParameter.name)))
  {
    SomeListedIff(t.outgoing, SourceEnds(t.connections), c.source.name, c.sourceParameter.name);
    SomeListedIff(t.incoming, TargetEnds(t.connections), c.target.name, c.targetParameter.name);
    hide WellFormed, Under;
  }

  lemma SomeListedIff(ix: Index, ends: map<Id, (string, string)>, n: string, p: string)
    requires Agrees(ix, ends)
    ensures Under(ix, n, p) != [] <==> exists id :: id in ends && ends[id] == (n, p)
  {
    if Under(ix, n, p) != [] { assert Under(ix, n, p)[0] in Under(ix, n, p); }
    if id :| id in ends && ends[id] == (n, p) { assert id in Under(ix, n, p); }
  }

  // ----- What every reachable table satisfies

  /** `registry` names the workflow's nodes. A connection's ends are registered, and use their own parameters. */
  ghost predicate Typed(registry: map<string, Node>, c: Connection) {
    && c.source.name in registry && registry[c.source.name] == c.source
    && c.target.name in registry && registry[c.target.name] == c.target
    && c.sourceParameter.name in c.source.parameters
    && c.source.parameters[c.sourceParameter.name] == c.sourceParameter
    && c.targetParameter.name in c.target.parameters
    && c.target.parameters[c.targetParameter.name] == c.targetParameter
  }

  ghost function SourceEnds(connections: map<Id, Connection>): map<Id, (string, string)> {
    map id | id in connections :: (connections[id].source.name, connections[id].sourceParameter.name)
  }

  ghost function TargetEnds(connections: map<Id, Connection>): map<Id, (string, string)> {
    map id | id in connections :: (connections[id].target.name, connections[id].targetParameter.name)
  }

  ghost predicate IndexesAgree(t: Table) {
    Agrees(t.outgoing, SourceEnds(t.connections)) && Agrees(t.incoming, TargetEnds(t.connections))
  }

  ghost predicate AtMostOnce(t: Table, c: Connection) {
    && (ControlOutput(c.sourceParameter) ==> |Under(t.outgoing, c.source.name, c.sourceParameter.name)| <= 1)
    && (DataInput(c.targetParameter) ==> |Under(t.incoming, c.target.name, c.targetParameter.name)| <= 1)
  }

  ghost predicate AllowedOnce(t: Table) {
    forall id :: id in t.connections ==>
      && OUTPUT in t.connections[id].sourceParameter.modes && INPUT in t.connections[id].targetParameter.modes
      && AtMostOnce(t, t.connections[id])
  }

  ghost predicate NamesMatch(registry: map<string, Node>) {
    forall n :: n in registry ==> registry[n].name == n
  }

  ghost predicate WellFormed(registry: map<string, Node>, t: Table) {
    && NamesMatch(registry)
    && (forall id :: id in t.connections ==> Typed(registry, t.connections[id]))
    && IndexesAgree(t) && AllowedOnce(t)
  }

  lemma SameEndSameParameter(registry: map<string, Node>, c: Connection, d: Connection)
    requires Typed(registry, c) && Typed(registry, d)
    ensures c.source.name == d.source.name && c.sourceParameter.name == d.sourceParameter.name
        ==> c.sourceParameter == d.sourceParameter
    ensures c.target.name == d.target.name && c.targetParameter.name == d.targetParameter.name
        ==> c.targetParameter == d.targetParameter
  {
  }

  lemma AddKeepsIndexes(t: Table, id: Id, c: Connection)
    requires IndexesAgree(t) && id !in t.connections
    ensures IndexesAgree(WithConnection(t, id, c))
  {
    hide Agrees, Appended;
    AppendAgrees(t.outgoing, SourceEnds(t.connections), id, c.source.name, c.sourceParameter.name);
    AppendAgrees(t.incoming, TargetEnds(t.connections), id, c.target.name, c.targetParameter.name);
    var u := WithConnection(t, id, c);
    assert SourceEnds(u.connections) == SourceEnds(t.connections)[id := (c.source.name, c.sourceParameter.name)];
    assert TargetEnds(u.connections) == TargetEnds(t.connections)[id := (c.target.name, c.targetParameter.name)];
  }

  lemma AddKeepsAtMostOnce(registry: map<string, Node>, t: Table, id: Id, c: Connection, d: Connection)
    requires Typed(registry, c) && AddVerdict(t, c) == Added && Typed(registry, d)
    requires d == c || AtMostOnce(t, d)
    ensures AtMostOnce(WithConnection(t, id, c), d)
  {
    hide Appended;
    SameEndSameParameter(registry, c, d);
    AppendedUnder(t.outgoing, c.source.name, c.sourceParameter.name, id, d.source.name, d.sourceParameter.name);
    AppendedUnder(t.incoming, c.target.name, c.targetParameter.name, id, d.target.name, d.targetParameter.name);
  }

  /** An allowed addition keeps the table well formed. */
  lemma AddKeepsWellFormed(registry: map<string, Node>, t: Table, id: Id, c: Connection)
    requires WellFormed(registry, t) && id !in t.connections && Typed(registry, c) && AddVerdict(t, c) == Added
    ensures WellFormed(registry, WithConnection(t, id, c))
  {
    hide IndexesAgree, Appended, Under, AtMostOnce, Typed;
    AddKeepsIndexes(t, id, c);
    var u := WithConnection(t, id, c);
    forall x | x in u.connections ensures AtMostOnce(u, u.connections[x]) {
      AddKeepsAtMostOnce(registry, t, id, c, u.connections[x]);
    }
  }

  lemma RemoveKeepsIndexes(t: Table, id: Id)
    requires IndexesAgree(t) && id in t.connections
    ensures CanRemove(t, id)
    ensures IndexesAgree(WithoutConnection(t, id))
  {
    hide Agrees, Dropped, CanDrop;
    var c := t.connections[id];
    DropAgrees(t.outgoing, SourceEnds(t.connections), id, c.source.name, c.sourceParameter.name);
    DropAgrees(t.incoming, TargetEnds(t.connections), id, c.target.name, c.targetParameter.name);
    assert SourceEnds(t.connections - {id}) == SourceEnds(t.connections) - {id};
    assert TargetEnds(t.connections - {id}) == TargetEnds(t.connections) - {id};
  }

  lemma RemoveKeepsAtMostOnce(t: Table, id: Id, d: Connection)
    requires IndexesAgree(t) && id in t.connections && AtMostOnce(t, d)
    ensures CanRemove(t, id) && AtMostOnce(WithoutConnection(t, id), d)
  {
    hide Agrees, Dropped;
    RemoveKeepsIndexes(t, id);
    var c := t.connections[id];
    assert NothingEmpty(t.outgoing) && NothingEmpty(t.incoming) by { AgreesNotEmpty(t); }
    DroppedUnder(t.outgoing, c.source.name, c.sourceParameter.name, id, d.source.name, d.sourceParameter.name);
    DroppedUnder(t.incoming, c.target.name, c.targetParameter.name, id, d.target.name, d.targetParameter.name);
    RemoveFirstMembers(Under(t.outgoing, c.source.name, c.sourceParameter.name), id, id);
    RemoveFirstMembers(Under(t.incoming, c.target.name, c.targetParameter.name), id, id);
  }

  lemma AgreesNotEmpty(t: Table)
    requires IndexesAgree(t)
    ensures NothingEmpty(t.outgoing) && NothingEmpty(t.incoming)
  {
  }

  lemma RemoveKeepsWellFormed(registry: map<string, Node>, t: Table, id: Id)
    requires WellFormed(registry, t) && id in t.connections
    ensures CanRemove(t, id)
    ensures WellFormed(registry, WithoutConnection(t, id))
  {
    hide IndexesAgree, CanRemove, AtMostOnce, Typed;
    RemoveKeepsIndexes(t, id);
    var u := WithoutConnection(t, id);
    forall x | x in u.connections ensures AtMostOnce(u, u.connections[x]) {
      RemoveKeepsAtMostOnce(t, id, u.connections[x]);
    }
  }

  /** Adding a connection and removing it again restores the exact table, emptied lists and maps included. */
  lemma RemoveUndoesAdd(registry: map<string, Node>, t: Table, id: Id, c: Connection)
    requires WellFormed(registry, t) && id !in t.connections
    ensures CanRemove(WithConnection(t, id, c), id) && WithoutConnection(WithConnection(t, id, c), id) == t
  {
    hide Dropped, Typed, AllowedOnce;
    assert id !in Under(t.outgoing, c.source.name, c.sourceParameter.name);
    assert id !in Under(t.incoming, c.target.name, c.targetParameter.name);
    DropUndoesAppend(t.outgoing, c.source.name, c.sourceParameter.name, id);
    DropUndoesAppend(t.incoming, c.target.name, c.targetParameter.name, id);
    assert t.connections[id := c] - {id} == t.connections;
  }

  // ----- Runs of operations

  datatype Op = Add(id: Id, connection: Connection) | Remove(removed: Id)

  /** An addition uses the identity of a new object; a refused addition and an unknown removal change nothing. */
  ghost predicate Enabled(registry: map<string, Node>, t: Table, op: Op) {
    op.Add? ==> op.id !in t.connections && Typed(registry, op.connection)
  }

  /** The table once `id`, if it is there, has been taken out of all three maps. */
  ghost function RemovedFrom(registry: map<string, Node>, t: Table, id: Id): (u: Table)
    requires WellFormed(registry, t)
    ensures WellFormed(registry, u)
  {
    if id in t.connections then RemoveKeepsWellFormed(registry, t, id); WithoutConnection(t, id) else t
  }

  ghost function Apply(registry: map<string, Node>, t: Table, op: Op): (u: Table)
    requires WellFormed(registry, t) && Enabled(registry, t, op)
    ensures WellFormed(registry, u)
  {
    match op
    case Add(id, c) =>
      if AddVerdict(t, c) == Added then AddKeepsWellFormed(registry, t, id, c); WithConnection(t, id, c) else t
    case Remove(id) => RemovedFrom(registry, t, id)
  }

  /** Removing a connection takes it out of the store and of every list it is in, and leaves the others as they are. */
  lemma RemovedIs(registry: map<string, Node>, t: Table, id: Id, n: string, p: string)
    requires WellFormed(registry, t)
    ensures var u := Apply(registry, t, Remove(id));
      && u == RemovedFrom(registry, t, id) && u.connections == t.connections - {id}
      && Under(u.outgoing, n, p) == RemoveFirst(Under(t.outgoing, n, p), id)
      && Under(u.incoming, n, p) == RemoveFirst(Under(t.incoming, n, p), id)
  {
    hide Dropped, AllowedOnce, Typed;
    assert id in Under(t.outgoing, n, p) <==> id in t.connections && SourceEnds(t.connections)[id] == (n, p);
    assert id in Under(t.incoming, n, p) <==> id in t.connections && TargetEnds(t.connections)[id] == (n, p);
    RemoveFirstAbsent(Under(t.outgoing, n, p), id);
    RemoveFirstAbsent(Under(t.incoming, n, p), id);
    if id in t.connections {
      RemoveKeepsWellFormed(registry, t, id);
      var c := t.connections[id];
      DroppedUnder(t.outgoing, c.source.name, c.sourceParameter.name, id, n, p);
      DroppedUnder(t.incoming, c.target.name, c.targetParameter.name, id, n, p);
    }
  }

  /** Adding one stores it and lists it last under its own ends, if it is accepted, and changes nothing if not. */
  lemma AddedIs(registry: map<string, Node>, t: Table, id: Id, c: Connection, n: string, p: string)
    requires WellFormed(registry, t) && id !in t.connections && Typed(registry, c)
    ensures var u := Apply(registry, t, Add(id, c));
      if AddVerdict(t, c) != Added then u == t
      else
        && u.connections == t.connections[id := c]
        && Under(u.outgoing, n, p) ==
           Under(t.outgoing, n, p) + (if (n, p) == (c.source.name, c.sourceParameter.name) then [id] else [])
        && Under(u.incoming, n, p) ==
           Under(t.incoming, n, p) + (if (n, p) == (c.target.name, c.targetParameter.name) then [id] else [])
  {
    hide Appended, WellFormed;
    AppendedUnder(t.outgoing, c.source.name, c.sourceParameter.name, id, n, p);
    AppendedUnder(t.incoming, c.target.name, c.targetParameter.name, id, n, p);
  }

  ghost predicate IsRun(registry: map<string, Node>, t: Table, ops: seq<Op>)
    requires WellFormed(registry, t)
    decreases ops
  {
    ops == [] || (Enabled(registry, t, ops[0]) && IsRun(registry, Apply(registry, t, ops[0]), ops[1..]))
  }

  ghost function AfterRun(registry: map<string, Node>, t: Table, ops: seq<Op>): Table
    requires WellFormed(registry, t) && IsRun(registry, t, ops)
    decreases ops
  {
    if ops == [] then t else AfterRun(registry, Apply(registry, t, ops[0]), ops[1..])
  }

  /** In every table any run of additions and removals leads to, the indexes agree with the connections, nothing
      empty is left behind, and no control output or data input holds two connections. */
  lemma {:induction false} EveryRunKeeps(registry: map<string, Node>, t: Table, ops: seq<Op>)
    requires WellFormed(registry, t) && IsRun(registry, t, ops)
    ensures WellFormed(registry, AfterRun(registry, t, ops))
    decreases ops
  {
    if ops != [] {
      EveryRunKeeps(registry, Apply(registry, t, ops[0]), ops[1..]);
    }
  }

  lemma EmptyIsWellFormed(registry: map<string, Node>)
    requires NamesMatch(registry)
    ensures WellFormed(registry, EMPTY)
  {
  }

  /** A connection that belongs to the table is found under both its ends, and nowhere else. */
  lemma FoundExactlyOnce(registry: map<string, Node>, t: Table, id: Id)
    requires WellFormed(registry, t) && id in t.connections
    ensures forall n, p ::
      multiset(Under(t.outgoing, n, p))[id] == if (n, p) == SourceEnds(t.connections)[id] then 1 else 0
    ensures forall n, p ::
      multiset(Under(t.incoming, n, p))[id] == if (n, p) == TargetEnds(t.connections)[id] then 1 else 0
  {
    forall n, p
      ensures multiset(Under(t.outgoing, n, p))[id] == (if (n, p) == SourceEnds(t.connections)[id] then 1 else 0)
    {
      CountOnce(Under(t.outgoing, n, p), id);
    }
    forall n, p
      ensures multiset(Under(t.incoming, n, p))[id] == (if (n, p) == TargetEnds(t.connections)[id] then 1 else 0)
    {
      CountOnce(Under(t.incoming, n, p), id);
    }
  }

  // ----- Following one connection

  datatype Direction = UPSTREAM | DOWNSTREAM

  datatype Found = Nothing | At(node: Node, parameter: Parameter) | TooMany

  function Toward(p: Parameter, direction: Option<Direction>): Direction {
    match direction
    case Some(d) => d
    case None => if ControlOutput(p) then DOWNSTREAM else UPSTREAM
  }

  function Candidates(t: Table, node: string, p: Parameter, d: Direction): seq<Id> {
    Under(if d.UPSTREAM? then t.incoming else t.outgoing, node, p.name)
  }

  function ConnectedNode(t: Table, node: string, p: Parameter, direction: Option<Direction>,
                         includeInternal: bool): Found {
    var d := Toward(p, direction);
    var ids := Candidates(t, node, p, d);
    if |ids| == 0 then Nothing
    else if |ids| > 1 && !(d.UPSTREAM? && ControlOutput(p)) && !(d.DOWNSTREAM? && !ControlOutput(p)) then TooMany
    else if ids[0] in t.connections then
      var c := t.connections[ids[0]];
      if c.internal && !includeInternal then Nothing
      else if d.DOWNSTREAM? then At(c.target, c.targetParameter)
      else At(c.source, c.sourceParameter)
    else Nothing
  }

  /** Looking along a connection fails exactly for a parameter that takes control in but puts data out, asked
      upstream, with several connections into it. */
  lemma TooManyIff(registry: map<string, Node>, t: Table, node: Node, p: Parameter,
                   direction: Option<Direction>, includeInternal: bool)
    requires WellFormed(registry, t) && node.name in registry && registry[node.name] == node
    requires p.name in node.parameters && node.parameters[p.name] == p
    ensures ConnectedNode(t, node.name, p, direction, includeInternal) == TooMany <==>
      && Toward(p, direction) == UPSTREAM && !ControlOutput(p) && !DataInput(p)
      && |Under(t.incoming, node.name, p.name)| > 1
  {
    var d := Toward(p, direction);
    var ids := Candidates(t, node.name, p, d);
    if |ids| > 0 {
      assert ids[0] in ids;
      assert ids[0] in t.connections;
    }
  }

  /** The connection `id` leads from the parameter `p` of one node to the parameter `q` of another. */
  ghost predicate Leads(t: Table, id: Id, node: string, p: string, n: string, q: string) {
    id in t.connections && SourceEnds(t.connections)[id] == (node, p) && TargetEnds(t.connections)[id] == (n, q)
  }

  /** `id` is listed first under `node` and `p`, and may be followed. */
  ghost predicate FollowsFirst(t: Table, ix: Index, node: string, p: string, includeInternal: bool, id: Id) {
    var ids := Under(ix, node, p);
    ids != [] && ids[0] == id && id in t.connections && (includeInternal || !t.connections[id].internal)
  }

  ghost predicate Registered(registry: map<string, Node>, node: Node, p: Parameter) {
    && node.name in registry && registry[node.name] == node
    && p.name in node.parameters && node.parameters[p.name] == p
  }

  lemma FirstLeads(t: Table, ix: Index, node: string, p: string, includeInternal: bool, a: string, b: string, n: string,
                   q: string)
    ensures (exists id :: FollowsFirst(t, ix, node, p, includeInternal, id) && Leads(t, id, a, b, n, q)) <==>
      var ids := Under(ix, node, p);
      ids != [] && ids[0] in t.connections &&
      var c := t.connections[ids[0]];
      && (includeInternal || !c.internal)
      && (c.source.name, c.sourceParameter.name) == (a, b) && (c.target.name, c.targetParameter.name) == (n, q)
  {
    hide Under;
    var ids := Under(ix, node, p);
    if ids != [] && ids[0] in t.connections && (includeInternal || !t.connections[ids[0]].internal) {
      assert FollowsFirst(t, ix, node, p, includeInternal, ids[0]);
    }
  }

  lemma FirstListed(registry: map<string, Node>, t: Table, node: Node, p: Parameter)
    requires WellFormed(registry, t) && Registered(registry, node, p)
    ensures var ids := Under(t.outgoing, node.name, p.name);
      && (ids != [] ==> ids[0] in t.connections && SourceEnds(t.connections)[ids[0]] == (node.name, p.name)
                        && Typed(registry, t.connections[ids[0]]))
      && (p.outputType == CONTROL_TYPE ==> |ids| <= 1)
    ensures var ids := Under(t.incoming, node.name, p.name);
      ids != [] ==> ids[0] in t.connections && TargetEnds(t.connections)[ids[0]] == (node.name, p.name)
                    && Typed(registry, t.connections[ids[0]])
  {
    if Under(t.outgoing, node.name, p.name) != [] {
      assert Under(t.outgoing, node.name, p.name)[0] in Under(t.outgoing, node.name, p.name);
    }
    if Under(t.incoming, node.name, p.name) != [] {
      assert Under(t.incoming, node.name, p.name)[0] in Under(t.incoming, node.name, p.name);
    }
  }

  /** Downstream, where a control output goes when not told otherwise, one arrives at the parameter that the first listed
      connection leads to. */
  lemma FollowedDownstreamIff(registry: map<string, Node>, t: Table, node: Node, p: Parameter,
                              direction: Option<Direction>, includeInternal: bool, n: Node, q: Parameter)
    requires WellFormed(registry, t) && Registered(registry, node, p) && Registered(registry, n, q)
    requires direction == Some(DOWNSTREAM) || (direction == None && p.outputType == CONTROL_TYPE)
    ensures ConnectedNode(t, node.name, p, direction, includeInternal) == At(n, q) <==>
      exists id :: FollowsFirst(t, t.outgoing, node.name, p.name, includeInternal, id)
                   && Leads(t, id, node.name, p.name, n.name, q.name)
  {
    hide WellFormed, Under, Leads, FollowsFirst;
    FirstListed(registry, t, node, p);
    FirstLeads(t, t.outgoing, node.name, p.name, includeInternal, node.name, p.name, n.name, q.name);
  }

  /** Upstream, where any other parameter goes, one arrives at the parameter that the first listed connection comes
      from, unless there are several and the parameter puts out data. */
  lemma FollowedUpstreamIff(registry: map<string, Node>, t: Table, node: Node, p: Parameter,
                            direction: Option<Direction>, includeInternal: bool, n: Node, q: Parameter)
    requires WellFormed(registry, t) && Registered(registry, node, p) && Registered(registry, n, q)
    requires direction == Some(UPSTREAM) || (direction == None && p.outputType != CONTROL_TYPE)
    ensures ConnectedNode(t, node.name, p, direction, includeInternal) == At(n, q) <==>
      && (|Under(t.incoming, node.name, p.name)| == 1 || p.outputType == CONTROL_TYPE)
      && exists id :: FollowsFirst(t, t.incoming, node.name, p.name, includeInternal, id)
                      && Leads(t, id, n.name, q.name, node.name, p.name)
  {
    hide WellFormed, Under, Leads, FollowsFirst;
    FirstListed(registry, t, node, p);
    FirstLeads(t, t.incoming, node.name, p.name, includeInternal, n.name, q.name, node.name, p.name);
  }

  /** One arrives nowhere exactly when no connection is there, or the first is internal and those are not followed. What
      one arrives at is a node of the workflow and its parameter. */
  lemma FollowedNowhereIff(registry: map<string, Node>, t: Table, node: Node, p: Parameter,
                           direction: Option<Direction>, includeInternal: bool)
    requires WellFormed(registry, t) && Registered(registry, node, p)
    ensures var d := if direction.Some? then direction.value else if p.outputType == CONTROL_TYPE then DOWNSTREAM else UPSTREAM;
      var ids := Under(if d == UPSTREAM then t.incoming else t.outgoing, node.name, p.name);
      ConnectedNode(t, node.name, p, direction, includeInternal) == Nothing <==>
        ids == [] || ((|ids| == 1 || (d == UPSTREAM <==> p.outputType == CONTROL_TYPE))
                      && ids[0] in t.connections && t.connections[ids[0]].internal && !includeInternal)
    ensures ConnectedNode(t, node.name, p, direction, includeInternal).At? ==>
      var found := ConnectedNode(t, node.name, p, direction, includeInternal);
      Registered(registry, found.node, found.parameter)
  {
    FirstListed(registry, t, node, p);
    hide WellFormed, Under;
  }

  /** So it never fails for a parameter whose two sides agree on whether it carries control. */
  lemma NeverTooMany(registry: map<string, Node>, t: Table, node: Node, p: Parameter,
                     direction: Option<Direction>, includeInternal: bool)
    requires WellFormed(registry, t) && node.name in registry && registry[node.name] == node
    requires p.name in node.parameters && node.parameters[p.name] == p
    requires ControlOutput(p) || DataInput(p)
    ensures ConnectedNode(t, node.name, p, direction, includeInternal) != TooMany
  {
    TooManyIff(registry, t, node, p, direction, includeInternal);
  }

  /** The failure is real: a second connection into such a parameter is accepted, and then looking upstream fails. */
  lemma MixedParameterFails(registry: map<string, Node>, t: Table, id: Id, c: Connection, includeInternal: bool)
    requires WellFormed(registry, t) && id !in t.connections && Typed(registry, c) && AddVerdict(t, c) == Added
    requires !ControlOutput(c.targetParameter) && !DataInput(c.targetParameter)
    requires Under(t.incoming, c.target.name, c.targetParameter.name) != []
    ensures ConnectedNode(WithConnection(t, id, c), c.target.name, c.targetParameter, None, includeInternal) == TooMany
  {
    AddKeepsWellFormed(registry, t, id, c);
    AppendedUnder(t.incoming, c.target.name, c.targetParameter.name, id, c.target.name, c.targetParameter.name);
    TooManyIff(registry, WithConnection(t, id, c), c.target, c.targetParameter, None, includeInternal);
  }

  /** And such a table can be reached: two nodes each have an output connected to the mixed parameter of a third. */
  method MixedParameterExample() returns (registry: map<string, Node>, c0: Connection, c1: Connection)
    ensures Typed(registry, c0) && Typed(registry, c1) && c0.target == c1.target && c0.targetParameter == c1.targetParameter
    ensures AddVerdict(EMPTY, c0) == Added && AddVerdict(WithConnection(EMPTY, 0, c0), c1) == Added
    ensures var t := WithConnection(WithConnection(EMPTY, 0, c0), 1, c1);
      WellFormed(registry, t) && ConnectedNode(t, c1.target.name, c1.targetParameter, None, true) == TooMany
  {
    var output := Parameter("out", CONTROL_TYPE, [], {OUTPUT});
    var mixed := Parameter("in", "str", [CONTROL_TYPE], {INPUT, OUTPUT});
    var a := new Node("A", map["out" := output]);
    var b := new Node("B", map["out" := output]);
    var c := new Node("C", map["in" := mixed]);
    registry := map["A" := a, "B" := b, "C" := c];
    c0 := Connection(a, output, c, mixed, false);
    c1 := Connection(b, output, c, mixed, false);
    EmptyIsWellFormed(registry);
    hide WellFormed, ConnectedNode;
    AddKeepsWellFormed(registry, EMPTY, 0, c0);
    var t := WithConnection(EMPTY, 0, c0);
    AppendedUnder(EMPTY.incoming, "C", "in", 0, "C", "in");
    AppendedUnder(EMPTY.outgoing, "A", "out", 0, "B", "out");
    AddKeepsWellFormed(registry, t, 1, c1);
    MixedParameterFails(registry, t, 1, c1, true);
  }

  // ----- Edges between nodes

  predicate CarriesData(c: Connection) {
    OUTPUT in c.sourceParameter.modes && !ControlOutput(c.sourceParameter)
  }

  /** The source looks the parameter up on the node by name. */
  predicate CarriesControl(c: Connection) {
    c.sourceParameter.name in c.source.parameters && ControlOutput(c.source.parameters[c.sourceParameter.name])
  }

  /** Every stored connection is an edge of one kind: control if its source parameter puts out control, data if not. */
  lemma OneKindOfEdge(registry: map<string, Node>, t: Table, id: Id)
    requires WellFormed(registry, t) && id in t.connections
    ensures CarriesControl(t.connections[id]) <==> t.connections[id].sourceParameter.outputType == CONTROL_TYPE
    ensures CarriesData(t.connections[id]) <==> t.connections[id].sourceParameter.outputType != CONTROL_TYPE
  {
    assert Typed(registry, t.connections[id]);
  }

  ghost function DataEdges(t: Table): set<(string, string)> {
    set id | id in t.connections && CarriesData(t.connections[id]) ::
      (t.connections[id].source.name, t.connections[id].target.name)
  }

  ghost function ControlEdges(t: Table): set<(string, string)> {
    set id | id in t.connections && CarriesControl(t.connections[id]) ::
      (t.connections[id].source.name, t.connections[id].target.name)
  }
}
