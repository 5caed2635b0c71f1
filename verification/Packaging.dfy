/** Taking packaged nodes out of a scheduling graph while the node that stands in for them keeps their
    outside consumers waiting. */
module Packaging {
  import opened Reachability
  import opened SchedulingGraph

  /** `s` lies outside the package, is not the stand-in, and waits for one of `done`. */
  ghost predicate Waits(g: Graph, packaged: set<string>, done: set<string>, standIn: string, s: string) {
    s in g.nodes && s !in packaged && s != standIn && exists p :: p in done && p in Preds(g, s)
  }

  /** A node outside the package, other than the stand-in, that waits for a packaged node. */
  ghost predicate Consumer(g: Graph, packaged: set<string>, standIn: string, s: string) {
    Waits(g, packaged, packaged, standIn, s)
  }

  /** `h` is `g` once the nodes `done`, some of the packaged ones, have been taken out. Nothing here
      depends on the order in which they were. */
  ghost predicate IsRedirectedSoFar(g: Graph, packaged: set<string>, done: set<string>, standIn: string, h: Graph) {
    && WellFormed(h)
    && (forall n :: n in h.nodes <==>
          n in g.nodes - done || (n == standIn && exists s :: Waits(g, packaged, done, standIn, s)))
    && (forall n :: n !in done ==>
          Preds(h, n) == (Preds(g, n) - done) + if Waits(g, packaged, done, standIn, n) then {standIn} else {})
  }

  /** The closed form of the whole rewrite: every packaged node is gone, and each outside node that waited
      for one waits for the stand-in instead. */
  ghost predicate IsRedirected(g: Graph, packaged: set<string>, standIn: string, h: Graph) {
    IsRedirectedSoFar(g, packaged, packaged, standIn, h)
  }

  /** The closed form determines the graph, whatever order the packaged nodes were visited in. */
  lemma RedirectedIsUnique(g: Graph, packaged: set<string>, standIn: string, h: Graph, k: Graph)
    requires WellFormed(g) && standIn !in packaged
    requires IsRedirected(g, packaged, standIn, h) && IsRedirected(g, packaged, standIn, k)
    ensures h == k
  {
    assert forall n :: n in h.nodes ==> n !in packaged;
    SameGraph(h, k);
  }

  /** `h` is `g` with an edge from `from` to each of `targets`. */
  ghost predicate HasEdges(g: Graph, from: string, targets: set<string>, h: Graph) {
    && WellFormed(h)
    && h.nodes == g.nodes + targets + (if targets == {} then {} else {from})
    && forall n :: Preds(h, n) == Preds(g, n) + if n in targets then {from} else {}
  }

  lemma HasEdgesGrows(g: Graph, from: string, targets: set<string>, h: Graph, t: string)
    requires HasEdges(g, from, targets, h)
    ensures HasEdges(g, from, targets + {t}, WithEdge(h, from, t))
  {
    PredsWithEdge(h, from, t);
  }

  /** Handling one more packaged node: `h` before, `k` with the edges re-pointed. */
  ghost predicate OneStep(g: Graph, packaged: set<string>, done: set<string>, standIn: string, p: string, h: Graph,
                          k: Graph) {
    && WellFormed(g) && done <= packaged && p in packaged - done && standIn !in packaged
    && IsRedirectedSoFar(g, packaged, done, standIn, h)
    && HasEdges(h, standIn, Successors(h, p) - packaged - {standIn}, k)
  }

  lemma TargetsWaited(g: Graph, packaged: set<string>, done: set<string>, standIn: string, p: string, h: Graph,
                      k: Graph, s: string)
    requires OneStep(g, packaged, done, standIn, p, h, k)
    ensures s in Successors(h, p) - packaged - {standIn} <==> s !in packaged && s != standIn && p in Preds(g, s)
  {
    assert s in Successors(h, p) <==> p in Preds(h, s);
  }

  lemma OneStepPreds(g: Graph, packaged: set<string>, done: set<string>, standIn: string, p: string, h: Graph,
                     k: Graph, n: string)
    requires OneStep(g, packaged, done, standIn, p, h, k) && n !in done + {p}
    ensures Preds(WithoutNode(k, p), n) ==
      (Preds(g, n) - (done + {p})) + if Waits(g, packaged, done + {p}, standIn, n) then {standIn} else {}
  {
    PredsWithoutNode(k, p);
    TargetsWaited(g, packaged, done, standIn, p, h, k, n);
    WaitsGrows(g, packaged, done, standIn, p, n);
  }

  lemma OneStepNodes(g: Graph, packaged: set<string>, done: set<string>, standIn: string, p: string, h: Graph,
                     k: Graph, n: string)
    requires OneStep(g, packaged, done, standIn, p, h, k)
    ensures n in WithoutNode(k, p).nodes <==>
      n in g.nodes - (done + {p}) || (n == standIn && exists s :: Waits(g, packaged, done + {p}, standIn, s))
  {
    PredsWithoutNode(k, p);
    var targets := Successors(h, p) - packaged - {standIn};
    assert targets <= h.nodes;
    forall s ensures Waits(g, packaged, done + {p}, standIn, s) <==> Waits(g, packaged, done, standIn, s) || s in targets {
      TargetsWaited(g, packaged, done, standIn, p, h, k, s);
      WaitsGrows(g, packaged, done, standIn, p, s);
    }
  }

  lemma RedirectOne(g: Graph, packaged: set<string>, done: set<string>, standIn: string, p: string, h: Graph,
                    k: Graph)
    requires OneStep(g, packaged, done, standIn, p, h, k)
    ensures IsRedirectedSoFar(g, packaged, done + {p}, standIn, WithoutNode(k, p))
  {
    PredsWithoutNode(k, p);
    forall n | n !in done + {p} ensures Preds(WithoutNode(k, p), n) ==
      (Preds(g, n) - (done + {p})) + if Waits(g, packaged, done + {p}, standIn, n) then {standIn} else {}
    {
      OneStepPreds(g, packaged, done, standIn, p, h, k, n);
    }
    forall n ensures n in WithoutNode(k, p).nodes <==>
      n in g.nodes - (done + {p}) || (n == standIn && exists s :: Waits(g, packaged, done + {p}, standIn, s))
    {
      OneStepNodes(g, packaged, done, standIn, p, h, k, n);
    }
  }

  lemma WaitsGrows(g: Graph, packaged: set<string>, done: set<string>, standIn: string, p: string, s: string)
    requires WellFormed(g)
    ensures Waits(g, packaged, done + {p}, standIn, s) <==>
      Waits(g, packaged, done, standIn, s) || (s !in packaged && s != standIn && p in Preds(g, s))
  {
  }

  lemma RedirectAbsent(g: Graph, packaged: set<string>, done: set<string>, standIn: string, p: string, h: Graph)
    requires WellFormed(g) && done <= packaged && p in packaged - done && standIn !in packaged && p !in h.nodes
    requires IsRedirectedSoFar(g, packaged, done, standIn, h)
    ensures IsRedirectedSoFar(g, packaged, done + {p}, standIn, h)
  {
    assert p !in g.nodes;
    forall s ensures Waits(g, packaged, done + {p}, standIn, s) <==> Waits(g, packaged, done, standIn, s) {
      WaitsGrows(g, packaged, done, standIn, p, s);
    }
    assert forall s :: p !in Preds(g, s);
  }

  lemma NoneRedirected(g: Graph, packaged: set<string>, standIn: string)
    requires WellFormed(g)
    ensures IsRedirectedSoFar(g, packaged, {}, standIn, g)
  {
  }

  method RedirectPackagedEdgesAndRemove(network: DirectedGraph, packaged: set<string>, standIn: string)
    requires network.Valid() && standIn !in packaged
    modifies network
    ensures network.Valid()
    ensures IsRedirected(old(network.Value()), packaged, standIn, network.Value())
  {
    hide IsRedirectedSoFar, HasEdges, WellFormed, Waits, Successors, WithoutNode;
    ghost var g := network.Value();
    ghost var done: set<string> := {};
    NoneRedirected(g, packaged, standIn);
    var todo := packaged;
    while todo != {}
      invariant done + todo == packaged && done !! todo
      invariant network.Valid() && IsRedirectedSoFar(g, packaged, done, standIn, network.Value())
    {
      var p :| p in todo;
      ghost var h := network.Value();
      if p in network.nodes {
        ghost var k := RedirectSuccessors(network, p, packaged, standIn);
        network.RemoveNode(p);
        RedirectOne(g, packaged, done, standIn, p, h, k);
      } else {
        RedirectAbsent(g, packaged, done, standIn, p, h);
      }
      todo, done := todo - {p}, done + {p};
    }
    assert done == packaged;
  }

  lemma NoEdgesYet(g: Graph, from: string)
    requires WellFormed(g)
    ensures HasEdges(g, from, {}, g)
  {
  }

  /** Re-points the edges of one packaged node that lead outside. */
  method RedirectSuccessors(network: DirectedGraph, p: string, packaged: set<string>, standIn: string)
    returns (ghost k: Graph)
    requires network.Valid()
    modifies network
    ensures network.Valid() && k == network.Value()
    ensures HasEdges(old(network.Value()), standIn,
                     Successors(old(network.Value()), p) - packaged - {standIn}, network.Value())
  {
    hide WellFormed, HasEdges;
    ghost var g := network.Value();
    NoEdgesYet(g, standIn);
    var todo := Successors(Graph(network.nodes, network.predecessors), p);
    ghost var targets := todo - packaged - {standIn};
    ghost var added: set<string> := {};
    while todo != {}
      invariant added + (todo - packaged - {standIn}) == targets
      invariant network.Valid() && HasEdges(g, standIn, added, network.Value())
    {
      var s :| s in todo;
      if s !in packaged && s != standIn {
        HasEdgesGrows(g, standIn, added, network.Value(), s);
        network.AddEdge(standIn, s);
        added := added + {s};
      }
      todo := todo - {s};
    }
    assert added == targets;
    k := network.Value();
  }

  // ----- What the rewritten graph guarantees

  /** The rewritten graph's edges: those that stayed outside the package, and one from the stand-in to each consumer. */
  lemma RedirectedEdges(g: Graph, packaged: set<string>, standIn: string, h: Graph)
    requires WellFormed(g) && standIn !in packaged && IsRedirected(g, packaged, standIn, h)
    ensures forall a, b ::
      (a, b) in EdgesOf(h) <==>
      (a, b) in Outside(EdgesOf(g), packaged) || (a == standIn && Consumer(g, packaged, standIn, b))
    ensures forall n :: n in h.nodes <==>
      (n in g.nodes && n !in packaged) || (n == standIn && exists s :: Consumer(g, packaged, standIn, s))
  {
    assert forall a, b :: (a, b) in EdgesOf(h) <==> a in Preds(h, b);
    assert forall a, b :: (a, b) in EdgesOf(g) <==> a in Preds(g, b);
    assert forall b :: b in packaged ==> Preds(h, b) == {};
  }

  /** No edge of the rewritten graph joins the stand-in to itself that was not there before. */
  lemma NoNewSelfLoop(g: Graph, packaged: set<string>, standIn: string, h: Graph)
    requires WellFormed(g) && standIn !in packaged && IsRedirected(g, packaged, standIn, h)
    ensures Preds(h, standIn) == Preds(g, standIn) - packaged
  {
  }

  /** On the rewritten graph every run takes the stand-in before any outside consumer of the package. */
  lemma StandInRunsFirst(g: Graph, packaged: set<string>, standIn: string, h: Graph, run: seq<string>, k: nat)
    requires WellFormed(g) && standIn !in packaged && IsRedirected(g, packaged, standIn, h)
    ensures IsRun(h, run) && k < |run| && Consumer(g, packaged, standIn, run[k]) ==>
      exists j :: 0 <= j < k && run[j] == standIn
  {
    if IsRun(h, run) && k < |run| && Consumer(g, packaged, standIn, run[k]) {
      RedirectedEdges(g, packaged, standIn, h);
      RunsRespectEdges(h, run, standIn, run[k], k);
    }
  }

  /** Dropping the packaged nodes without redirecting would let a consumer run at once. */
  lemma {:induction false} PlainRemovalFrees(g: Graph, p: string, s: string)
    requires WellFormed(g) && s in g.nodes && s != p && Preds(g, s) == {p}
    ensures IsRun(WithoutNode(g, p), [s])
  {
    WithoutNodeEdges(g, p);
    CanRunHasNoPreds(WithoutNode(g, p), s);
  }

  /** A consumer reaches the stand-in without passing through the package. */
  ghost predicate ConsumerReachesStandIn(g: Graph, packaged: set<string>, standIn: string) {
    exists s :: Consumer(g, packaged, standIn, s) && Reach(Outside(EdgesOf(g), packaged), s, standIn)
  }

  lemma {:induction false} PathToStandIn(g: Graph, packaged: set<string>, standIn: string, h: Graph, p: seq<string>)
    requires WellFormed(g) && standIn !in packaged && IsRedirected(g, packaged, standIn, h)
    requires IsPath(EdgesOf(h), p) && p[|p| - 1] == standIn
    ensures Reach(Outside(EdgesOf(g), packaged), p[0], standIn)
  {
    var kept := Outside(EdgesOf(g), packaged);
    ReachRefl(kept, standIn);
    if |p| > 1 {
      RedirectedEdges(g, packaged, standIn, h);
      PathToStandIn(g, packaged, standIn, h, p[1..]);
      assert (p[0], p[1]) in EdgesOf(h);
      if (p[0], p[1]) in kept {
        ReachEdge(kept, p[0], p[1]);
        ReachTrans(kept, p[0], p[1], standIn);
      }
    }
  }

  /** A path of the rewritten graph keeps to old edges or takes a redirected one. */
  lemma {:induction false} PathCases(g: Graph, packaged: set<string>, standIn: string, h: Graph, p: seq<string>)
    requires WellFormed(g) && standIn !in packaged && IsRedirected(g, packaged, standIn, h)
    requires IsPath(EdgesOf(h), p)
    ensures IsPath(Outside(EdgesOf(g), packaged), p)
         || exists s :: Consumer(g, packaged, standIn, s)
                     && Reach(EdgesOf(h), p[0], standIn)
                     && Reach(EdgesOf(h), s, p[|p| - 1])
  {
    var es := EdgesOf(h);
    var kept := Outside(EdgesOf(g), packaged);
    if |p| > 1 {
      RedirectedEdges(g, packaged, standIn, h);
      assert (p[0], p[1]) in es;
      var q := p[1..];
      assert IsPath(es, q);
      assert q[|q| - 1] == p[|p| - 1];
      PathCases(g, packaged, standIn, h, q);
      if (p[0], p[1]) !in kept {
        assert p[0] == standIn && Consumer(g, packaged, standIn, p[1]);
        ReachRefl(es, p[0]);
        assert q[0] == p[1];
        assert Reach(es, p[1], p[|p| - 1]);
      } else if !IsPath(kept, q) {
        var s :| Consumer(g, packaged, standIn, s) && Reach(es, q[0], standIn) && Reach(es, s, q[|q| - 1]);
        ReachEdge(es, p[0], p[1]);
        ReachTrans(es, p[0], p[1], standIn);
      }
    }
  }

  /** Rewriting a graph without cycles leaves it without cycles exactly when no consumer reaches the stand-in
      outside the package. */
  lemma AcyclicIff(g: Graph, packaged: set<string>, standIn: string, h: Graph)
    requires WellFormed(g) && Acyclic(EdgesOf(g)) && standIn !in packaged && IsRedirected(g, packaged, standIn, h)
    ensures Acyclic(EdgesOf(h)) <==> !ConsumerReachesStandIn(g, packaged, standIn)
  {
    var es := EdgesOf(h);
    var kept := Outside(EdgesOf(g), packaged);
    RedirectedEdges(g, packaged, standIn, h);
    if ConsumerReachesStandIn(g, packaged, standIn) {
      var s :| Consumer(g, packaged, standIn, s) && Reach(kept, s, standIn);
      assert kept <= es;
      ReachMonotone(kept, es, s, standIn);
      assert ReachPlus(es, standIn, standIn);
    } else if a :| ReachPlus(es, a, a) {
      CycleNeedsConsumer(g, packaged, standIn, h, a);
    }
  }

  lemma CycleNeedsConsumer(g: Graph, packaged: set<string>, standIn: string, h: Graph, a: string)
    requires WellFormed(g) && Acyclic(EdgesOf(g)) && standIn !in packaged && IsRedirected(g, packaged, standIn, h)
    requires ReachPlus(EdgesOf(h), a, a)
    ensures ConsumerReachesStandIn(g, packaged, standIn)
  {
    var es := EdgesOf(h);
    var kept := Outside(EdgesOf(g), packaged);
    var c :| (a, c) in es && Reach(es, c, a);
    var p: seq<string> :| IsPath(es, p) && p[0] == c && p[|p| - 1] == a;
    var cycle := [a] + p;
    assert IsPath(es, cycle) by {
      forall i | 0 <= i < |cycle| - 1 ensures (cycle[i], cycle[i + 1]) in es {
        if i > 0 { assert cycle[i] == p[i - 1] && cycle[i + 1] == p[i]; }
      }
    }
    PathCases(g, packaged, standIn, h, cycle);
    if IsPath(kept, cycle) {
      PathGivesPlus(kept, cycle);
      PlusMonotone(kept, EdgesOf(g), a, a);
    } else {
      var s :| Consumer(g, packaged, standIn, s) && Reach(es, a, standIn) && Reach(es, s, a);
      ReachTrans(es, s, a, standIn);
      var q: seq<string> :| IsPath(es, q) && q[0] == s && q[|q| - 1] == standIn;
      PathToStandIn(g, packaged, standIn, h, q);
    }
  }

  /** The rewritten schedule can run to the end exactly when no consumer reaches the stand-in outside the package. */
  lemma RewrittenCompletesIff(g: Graph, packaged: set<string>, standIn: string, h: Graph)
    requires WellFormed(g) && Acyclic(EdgesOf(g)) && standIn !in packaged && IsRedirected(g, packaged, standIn, h)
    ensures (exists run :: IsRun(h, run)
                        && After(h, run).nodes == {})
       <==> !ConsumerReachesStandIn(g, packaged, standIn)
  {
    RedirectedEdges(g, packaged, standIn, h);
    AcyclicIff(g, packaged, standIn, h);
    CompletesIffAcyclic(h);
  }
}
