/** The scheduling graph: a set of node names and, for each, the names it waits for. */
module SchedulingGraph {
  import opened Options
  import opened Reachability

  datatype Graph = Graph(nodes: set<string>, preds: map<string, set<string>>)

  const EMPTY := Graph({}, map[])

  function Preds(g: Graph, n: string): set<string> {
    if n in g.preds then g.preds[n] else {}
  }

  ghost predicate WellFormed(g: Graph) {
    && g.preds.Keys == g.nodes
    && forall n :: n in g.preds ==> g.preds[n] <= g.nodes
  }

  function Successors(g: Graph, n: string): set<string> {
    set m | m in g.preds && n in g.preds[m]
  }

  /** Every dependency as a pair (what is waited for, what waits). */
  ghost function EdgesOf(g: Graph): set<(string, string)> {
    set n, p | n in g.preds && p in g.preds[n] :: (p, n)
  }

  function WithNode(g: Graph, n: string): Graph {
    Graph(g.nodes + {n}, if n in g.preds then g.preds else g.preds[n := {}])
  }

  function WithEdge(g: Graph, from: string, to: string): Graph {
    var h := WithNode(WithNode(g, from), to);
    Graph(h.nodes, h.preds[to := h.preds[to] + {from}])
  }

  function WithoutNode(g: Graph, n: string): Graph {
    if n !in g.nodes then g
    else Graph(g.nodes - {n}, map m | m in g.preds && m != n :: g.preds[m] - {n})
  }

  /** Two well-formed graphs with the same nodes and the same waits are the same graph. */
  lemma SameGraph(g: Graph, h: Graph)
    requires WellFormed(g) && WellFormed(h) && g.nodes == h.nodes
    requires forall n :: n in g.nodes ==> Preds(g, n) == Preds(h, n)
    ensures g == h
  {
    assert forall n :: n in g.preds ==> g.preds[n] == Preds(g, n) && h.preds[n] == Preds(h, n);
    assert g.preds == h.preds;
  }

  lemma PredsWithEdge(g: Graph, from: string, to: string)
    requires WellFormed(g)
    ensures WellFormed(WithEdge(g, from, to)) && WithEdge(g, from, to).nodes == g.nodes + {from, to}
    ensures forall n :: Preds(WithEdge(g, from, to), n) == Preds(g, n) + if n == to then {from} else {}
  {
  }

  lemma PredsWithoutNode(g: Graph, p: string)
    requires WellFormed(g)
    ensures WellFormed(WithoutNode(g, p)) && WithoutNode(g, p).nodes == g.nodes - {p}
    ensures forall n :: n != p ==> Preds(WithoutNode(g, p), n) == Preds(g, n) - {p}
  {
  }

  class DirectedGraph {
    var nodes: set<string>
    var predecessors: map<string, set<string>>

    ghost function Value(): Graph
      reads this
    {
      Graph(nodes, predecessors)
    }

    ghost predicate Valid()
      reads this
    {
      WellFormed(Value())
    }

    constructor ()
      ensures Valid() && Value() == EMPTY
    {
      nodes, predecessors := {}, map[];
    }

    method AddNode(n: string)
      requires Valid()
      modifies this
      ensures Valid() && Value() == WithNode(old(Value()), n)
    {
      nodes := nodes + {n};
      if n !in predecessors {
        predecessors := predecessors[n := {}];
      }
    }

    method AddEdge(from: string, to: string)
      requires Valid()
      modifies this
      ensures Valid() && Value() == WithEdge(old(Value()), from, to)
      ensures EdgesOf(Value()) == EdgesOf(old(Value())) + {(from, to)}
    {
      AddNode(from);
      AddNode(to);
      predecessors := predecessors[to := predecessors[to] + {from}];
    }

    /** None stands for the error raised for a name that is not in the graph. */
    method InDegree(n: string) returns (d: Option<nat>)
      requires Valid()
      ensures d == if n in nodes then Some(InDegreeOf(Value(), n)) else None
    {
      if n !in nodes { return None; }
      InDegreeIsSize(Value(), n);
      d := Some(|predecessors[n]|);
    }

    method OutDegree(n: string) returns (d: Option<nat>)
      requires Valid()
      ensures d == if n in nodes then Some(OutDegreeOf(Value(), n)) else None
    {
      hide *;
      if n !in nodes { return None; }
      SuccessorsAre(n);
      OutDegreeIsSize(Value(), n);
      var count, todo := 0, predecessors.Keys;
      ghost var waiting: set<string> := {};
      while todo != {}
        invariant todo <= predecessors.Keys && count == |waiting|
        invariant forall m :: m in waiting <==> m in predecessors.Keys && m !in todo && n in predecessors[m]
      {
        var m :| m in todo;
        if n in predecessors[m] {
          count := count + 1;
          waiting := waiting + {m};
        }
        todo := todo - {m};
      }
      assert waiting == set m | m in predecessors.Keys && n in predecessors[m];
      d := Some(count);
    }

    lemma SuccessorsAre(n: string)
      requires Valid()
      ensures WellFormed(Value())
      ensures Successors(Value(), n) == set m | m in predecessors.Keys && n in predecessors[m]
    {
    }

    method RemoveNode(n: string)
      requires Valid()
      modifies this
      ensures Valid() && Value() == WithoutNode(old(Value()), n)
      ensures EdgesOf(Value()) == Outside(EdgesOf(old(Value())), {n})
    {
      if n !in nodes { return; }
      nodes := nodes - {n};
      var todo := predecessors.Keys;
      while todo != {}
        invariant todo <= predecessors.Keys == old(predecessors).Keys
        invariant nodes == old(nodes) - {n}
        invariant forall m :: m in todo ==> predecessors[m] == old(predecessors)[m]
        invariant forall m :: m in predecessors && m !in todo ==> predecessors[m] == old(predecessors)[m] - {n}
      {
        var m :| m in todo;
        predecessors := predecessors[m := predecessors[m] - {n}];
        todo := todo - {m};
      }
      if n in predecessors {
        predecessors := predecessors - {n};
      }
      assert Value().preds == WithoutNode(old(Value()), n).preds;
    }
  }

  // ----- Degrees

  ghost function EdgesInto(g: Graph, over: set<string>): set<(string, string)> {
    set e | e in EdgesOf(g) && e.1 in over
  }

  ghost function EdgesOutOf(g: Graph, over: set<string>): set<(string, string)> {
    set e | e in EdgesOf(g) && e.0 in over
  }

  ghost function InDegreeOf(g: Graph, n: string): nat {
    |EdgesInto(g, {n})|
  }

  ghost function OutDegreeOf(g: Graph, n: string): nat {
    |EdgesOutOf(g, {n})|
  }

  lemma {:induction false} PairingKeepsSize(s: set<string>, n: string)
    ensures |set a | a in s :: (a, n)| == |s|
    ensures |set a | a in s :: (n, a)| == |s|
  {
    if s != {} {
      var x :| x in s;
      PairingKeepsSize(s - {x}, n);
      assert (set a | a in s :: (a, n)) == (set a | a in s - {x} :: (a, n)) + {(x, n)};
      assert (set a | a in s :: (n, a)) == (set a | a in s - {x} :: (n, a)) + {(n, x)};
    }
  }

  lemma InDegreeIsSize(g: Graph, n: string)
    requires WellFormed(g)
    ensures InDegreeOf(g, n) == |Preds(g, n)|
  {
    PairingKeepsSize(Preds(g, n), n);
    assert (set a | a in Preds(g, n) :: (a, n)) == EdgesInto(g, {n});
  }

  lemma OutDegreeIsSize(g: Graph, n: string)
    requires WellFormed(g)
    ensures OutDegreeOf(g, n) == |Successors(g, n)|
  {
    PairingKeepsSize(Successors(g, n), n);
    assert (set a | a in Successors(g, n) :: (n, a)) == EdgesOutOf(g, {n});
  }

  ghost function TotalInDegree(g: Graph, over: set<string>): nat {
    if over == {} then 0
    else var n :| n in over; InDegreeOf(g, n) + TotalInDegree(g, over - {n})
  }

  ghost function TotalOutDegree(g: Graph, over: set<string>): nat {
    if over == {} then 0
    else var n :| n in over; OutDegreeOf(g, n) + TotalOutDegree(g, over - {n})
  }

  lemma {:induction false} TotalInCounts(g: Graph, over: set<string>)
    ensures TotalInDegree(g, over) == |EdgesInto(g, over)|
  {
    if over != {} {
      var n :| n in over && TotalInDegree(g, over) == InDegreeOf(g, n) + TotalInDegree(g, over - {n});
      TotalInCounts(g, over - {n});
      assert EdgesInto(g, over) == EdgesInto(g, over - {n}) + EdgesInto(g, {n});
      assert EdgesInto(g, over - {n}) !! EdgesInto(g, {n});
      assert InDegreeOf(g, n) == |EdgesInto(g, {n})|;
      assert |EdgesInto(g, over)| == |EdgesInto(g, over - {n})| + |EdgesInto(g, {n})|;
    }
  }

  lemma {:induction false} TotalOutCounts(g: Graph, over: set<string>)
    ensures TotalOutDegree(g, over) == |EdgesOutOf(g, over)|
  {
    if over != {} {
      var n :| n in over && TotalOutDegree(g, over) == OutDegreeOf(g, n) + TotalOutDegree(g, over - {n});
      TotalOutCounts(g, over - {n});
      assert EdgesOutOf(g, over) == EdgesOutOf(g, over - {n}) + EdgesOutOf(g, {n});
      assert EdgesOutOf(g, over - {n}) !! EdgesOutOf(g, {n});
      assert OutDegreeOf(g, n) == |EdgesOutOf(g, {n})|;
      assert |EdgesOutOf(g, over)| == |EdgesOutOf(g, over - {n})| + |EdgesOutOf(g, {n})|;
    }
  }

  /** Summed over the whole graph the two degrees agree: each counts every edge once. */
  lemma DegreesBalance(g: Graph)
    requires WellFormed(g)
    ensures TotalInDegree(g, g.nodes) == TotalOutDegree(g, g.nodes) == |EdgesOf(g)|
  {
    TotalInCounts(g, g.nodes);
    TotalOutCounts(g, g.nodes);
    assert EdgesInto(g, g.nodes) == EdgesOf(g);
    assert EdgesOutOf(g, g.nodes) == EdgesOf(g);
  }

  // ----- Runs: repeatedly remove a node that waits for nothing

  ghost predicate CanRun(g: Graph, n: string) {
    n in g.nodes && InDegreeOf(g, n) == 0
  }

  ghost predicate IsRun(g: Graph, run: seq<string>)
    decreases run
  {
    run == [] || (CanRun(g, run[0]) && IsRun(WithoutNode(g, run[0]), run[1..]))
  }

  ghost function After(g: Graph, run: seq<string>): Graph
    decreases run
  {
    if run == [] then g else After(WithoutNode(g, run[0]), run[1..])
  }

  lemma CanRunHasNoPreds(g: Graph, n: string)
    requires WellFormed(g)
    ensures CanRun(g, n) <==> n in g.nodes && Preds(g, n) == {}
  {
    InDegreeIsSize(g, n);
  }

  lemma WithoutNodeEdges(g: Graph, n: string)
    requires WellFormed(g)
    ensures WellFormed(WithoutNode(g, n))
    ensures EdgesOf(WithoutNode(g, n)) == Outside(EdgesOf(g), {n})
  {
  }

  /** A run takes the source of every edge before its target. */
  lemma {:induction false} RunsRespectEdges(g: Graph, run: seq<string>, a: string, b: string, k: nat)
    requires WellFormed(g) && IsRun(g, run) && (a, b) in EdgesOf(g)
    requires k < |run| && run[k] == b
    ensures exists j :: 0 <= j < k && run[j] == a
    decreases run
  {
    CanRunHasNoPreds(g, run[0]);
    assert run[0] != b;
    if run[0] != a {
      var h := WithoutNode(g, run[0]);
      WithoutNodeEdges(g, run[0]);
      RunsRespectEdges(h, run[1..], a, b, k - 1);
      var j :| 0 <= j < k - 1 && run[1..][j] == a;
      assert run[j + 1] == a;
    }
  }

  lemma {:induction false} AfterKeepsAcyclic(g: Graph, run: seq<string>)
    requires WellFormed(g) && Acyclic(EdgesOf(g))
    ensures WellFormed(After(g, run)) && Acyclic(EdgesOf(After(g, run)))
    decreases run
  {
    if run != [] {
      var h := WithoutNode(g, run[0]);
      WithoutNodeEdges(g, run[0]);
      SubgraphAcyclic(EdgesOf(g), EdgesOf(h));
      AfterKeepsAcyclic(h, run[1..]);
    }
  }

  lemma SubgraphAcyclic<T(!new)>(es: set<(T, T)>, sub: set<(T, T)>)
    requires Acyclic(es) && sub <= es
    ensures Acyclic(sub)
  {
    forall a ensures !ReachPlus(sub, a, a) {
      if ReachPlus(sub, a, a) {
        PlusMonotone(sub, es, a, a);
      }
    }
  }

  /** Without a cycle no run gets stuck: while nodes remain, some node can run. */
  lemma AcyclicNeverStuck(g: Graph, run: seq<string>)
    requires WellFormed(g) && Acyclic(EdgesOf(g)) && IsRun(g, run)
    requires After(g, run).nodes != {}
    ensures exists n :: CanRun(After(g, run), n)
  {
    AfterKeepsAcyclic(g, run);
    var h := After(g, run);
    var m := AcyclicHasSource(EdgesOf(h), h.nodes);
    assert forall a :: a in Preds(h, m) ==> (a, m) in EdgesOf(h);
    CanRunHasNoPreds(h, m);
  }

  /** A node on a cycle is never taken by any run. */
  lemma {:induction false} CycleNeverRuns(g: Graph, run: seq<string>, a: string)
    requires WellFormed(g) && IsRun(g, run) && ReachPlus(EdgesOf(g), a, a)
    ensures a in After(g, run).nodes
    decreases run
  {
    if run == [] {
      var c :| (a, c) in EdgesOf(g) && Reach(EdgesOf(g), c, a);
    } else {
      var h := WithoutNode(g, run[0]);
      WithoutNodeEdges(g, run[0]);
      CanRunHasNoPreds(g, run[0]);
      var c :| (a, c) in EdgesOf(g) && Reach(EdgesOf(g), c, a);
      var p: seq<string> :| IsPath(EdgesOf(g), p) && p[0] == c && p[|p| - 1] == a;
      // Every node on the cycle waits for another, so the run's first node is not among them.
      assert c != run[0];
      forall i | 0 <= i < |p| ensures p[i] != run[0] {
        if i > 0 { assert (p[i - 1], p[i]) in EdgesOf(g); }
      }
      assert IsPath(EdgesOf(h), p);
      assert (a, c) in EdgesOf(h);
      CycleNeverRuns(h, run[1..], a);
    }
  }

  /** Runs can empty the graph exactly when it has no cycle, and then every run that stops early can go on. */
  lemma CompletesIffAcyclic(g: Graph)
    requires WellFormed(g)
    ensures (exists run :: IsRun(g, run) && After(g, run).nodes == {}) <==> Acyclic(EdgesOf(g))
  {
    if Acyclic(EdgesOf(g)) {
      var run := CompleteRun(g);
    } else {
      var a :| ReachPlus(EdgesOf(g), a, a);
      forall run | IsRun(g, run) ensures After(g, run).nodes != {} {
        CycleNeverRuns(g, run, a);
      }
    }
  }

  lemma {:induction false} CompleteRun(g: Graph) returns (run: seq<string>)
    requires WellFormed(g) && Acyclic(EdgesOf(g))
    ensures IsRun(g, run) && After(g, run).nodes == {}
    decreases |g.nodes|
  {
    if g.nodes == {} {
      run := [];
    } else {
      AcyclicNeverStuck(g, []);
      var n :| CanRun(g, n);
      var h := WithoutNode(g, n);
      WithoutNodeEdges(g, n);
      SubgraphAcyclic(EdgesOf(g), EdgesOf(h));
      var rest := CompleteRun(h);
      run := [n] + rest;
      assert run[1..] == rest;
    }
  }
}
