/** A whole scheduler run over fixed data connections. Every node the run starts first marks what lies
    downstream of it stale, and all those walks share one visited set. */
module StaleMarking {
  import opened Reachability
  import opened ConnectionTable
  import opened Connections

  /** The node states, and the names the run's walks have visited and that have not finished since. */
  datatype Run = Run(states: map<string, ResolutionState>, visited: set<string>)

  /** Starting a node walks from it and makes it RESOLVING; finishing one takes it out of the visited set and
      makes it RESOLVED; anything else may make a node stale or resolving at any time, but not resolved. */
  datatype Step = Start(node: string) | Finish(node: string) | Change(node: string, state: ResolutionState)

  ghost predicate IsStep(es: set<(string, string)>, s: Run, step: Step, t: Run) {
    step.node in s.states && t.states.Keys == s.states.Keys &&
    match step
    case Start(n) =>
      && Walked(es, s.visited, n, t.visited)
      && exists crossed :: CrossedTargets(es, s.visited, t.visited, crossed)
                        && t.states == StaledAll(s.states, crossed)[n := RESOLVING]
    case Finish(n) =>
      t.visited == s.visited - {n} && t.states == s.states[n := RESOLVED]
    case Change(n, state) =>
      state != RESOLVED && t.visited == s.visited && t.states == s.states[n := state]
  }

  ghost predicate IsResolved(s: Run, n: string) {
    n in s.states && s.states[n] == RESOLVED
  }

  /** The shared set is closed under data connections and nothing in it is RESOLVED. */
  ghost predicate Sound(es: set<(string, string)>, s: Run) {
    Closed(es, s.visited) && forall n :: n in s.visited ==> !IsResolved(s, n)
  }

  /** `m` finishes in data order: nothing directly upstream of it is still marked. */
  ghost predicate InOrder(es: set<(string, string)>, s: Run, m: string) {
    forall n :: n in s.visited && n != m ==> (n, m) !in es
  }

  /** A started node is marked and resolving, whatever its walk crossed; a finished one is RESOLVED and no longer marked;
      nodes no step touches keep their state. */
  lemma StepShows(es: set<(string, string)>, s: Run, step: Step, t: Run)
    requires IsStep(es, s, step, t)
    ensures step.Start? ==> step.node in t.visited && t.states[step.node] == RESOLVING && s.visited <= t.visited
    ensures step.Finish? ==> IsResolved(t, step.node) && step.node !in t.visited
    ensures !step.Start? ==> forall n :: n in s.states && n != step.node ==> t.states[n] == s.states[n]
    ensures step.Start? ==> forall n :: n in s.states && n != step.node && t.states[n] != s.states[n] ==>
      s.states[n] == RESOLVED && t.states[n] == UNRESOLVED && ReachPlus(es, step.node, n)
  {
    if step.Start? {
      ReachRefl(Avoiding(es, s.visited), step.node);
      var crossed :| CrossedTargets(es, s.visited, t.visited, crossed)
                  && t.states == StaledAll(s.states, crossed)[step.node := RESOLVING];
      forall n | n in s.states && n != step.node && t.states[n] != s.states[n]
        ensures s.states[n] == RESOLVED && t.states[n] == UNRESOLVED && ReachPlus(es, step.node, n)
      {
        CrossedIsDownstream(es, s.visited, step.node, t.visited, crossed, n);
      }
    }
  }

  lemma CrossedIsDownstream(es: set<(string, string)>, v0: set<string>, r: string, v: set<string>, crossed: set<string>,
                            n: string)
    requires Walked(es, v0, r, v) && CrossedTargets(es, v0, v, crossed) && n in crossed
    ensures ReachPlus(es, r, n)
  {
    var a :| a in v - v0 && (a, n) in es;
    ReachMonotone(Avoiding(es, v0), es, r, a);
    ReachRefl(es, n);
    assert ReachPlus(es, a, n);
    ReachThenPlus(es, r, a, n);
  }

  lemma StartKeepsSound(es: set<(string, string)>, s: Run, n: string, t: Run)
    requires Sound(es, s) && IsStep(es, s, Start(n), t)
    ensures Sound(es, t) && n in t.visited
  {
    WalkedStaysClosed(es, s.visited, n, t.visited);
    ReachRefl(es, n);
    var crossed :| CrossedTargets(es, s.visited, t.visited, crossed)
                && t.states == StaledAll(s.states, crossed)[n := RESOLVING];
    forall m | m in t.visited ensures !IsResolved(t, m) {
      if m !in s.visited && m != n {
        ReachCases(Avoiding(es, s.visited), n, m);
        var a := PlusLast(Avoiding(es, s.visited), n, m);
        assert a in t.visited - s.visited by { AvoidingStaysOut(es, s.visited, n, a); }
        assert m in crossed;
      }
    }
  }

  /** Finishing a node keeps the shared set sound exactly when the node finishes in data order. */
  lemma FinishKeepsSoundIff(es: set<(string, string)>, s: Run, m: string, t: Run)
    requires Sound(es, s) && IsStep(es, s, Finish(m), t)
    ensures Sound(es, t) <==> InOrder(es, s, m)
  {
    if !InOrder(es, s, m) {
      var n :| n in s.visited && n != m && (n, m) in es;
      assert n in t.visited && m !in t.visited;
    }
  }

  // ----- Whole runs

  ghost predicate IsRunOf(es: set<(string, string)>, trace: seq<Run>, steps: seq<Step>) {
    && |trace| == |steps| + 1
    && forall i :: 0 <= i < |steps| ==> IsStep(es, trace[i], steps[i], trace[i + 1])
  }

  ghost predicate AllInOrder(es: set<(string, string)>, trace: seq<Run>, steps: seq<Step>)
    requires |trace| == |steps| + 1
  {
    forall i :: 0 <= i < |steps| && steps[i].Finish? ==> InOrder(es, trace[i], steps[i].node)
  }

  lemma {:induction false} RunStaysSound(es: set<(string, string)>, trace: seq<Run>, steps: seq<Step>, k: nat)
    requires IsRunOf(es, trace, steps) && AllInOrder(es, trace, steps) && trace[0].visited == {}
    requires k <= |steps|
    ensures Sound(es, trace[k])
  {
    if k > 0 {
      RunStaysSound(es, trace, steps, k - 1);
      var s, t := trace[k - 1], trace[k];
      assert IsStep(es, s, steps[k - 1], t);
      match steps[k - 1] {
        case Start(n) => StartKeepsSound(es, s, n, t);
        case Finish(n) => FinishKeepsSoundIff(es, s, n, t);
        case Change(n, state) =>
      }
    }
  }

  /** In any interleaving of starts and finishes in which nodes finish in data order, nothing downstream of a
      node that has started and not finished, or that is marked stale, is RESOLVED. */
  lemma NothingDownstreamResolved(es: set<(string, string)>, trace: seq<Run>, steps: seq<Step>, k: nat, n: string,
                                  m: string)
    requires IsRunOf(es, trace, steps) && AllInOrder(es, trace, steps) && trace[0].visited == {}
    requires k <= |steps| && n in trace[k].visited && ReachPlus(es, n, m)
    ensures !IsResolved(trace[k], m)
  {
    RunStaysSound(es, trace, steps, k);
    PlusReach(es, n, m);
    ReachStaysIn(es, trace[k].visited, n, m);
  }

  lemma StartedMarksDownstream(es: set<(string, string)>, trace: seq<Run>, steps: seq<Step>, k: nat, m: string)
    requires IsRunOf(es, trace, steps) && AllInOrder(es, trace, steps) && trace[0].visited == {}
    requires k < |steps| && steps[k].Start? && ReachPlus(es, steps[k].node, m)
    ensures !IsResolved(trace[k + 1], m)
  {
    RunStaysSound(es, trace, steps, k);
    StartKeepsSound(es, trace[k], steps[k].node, trace[k + 1]);
    NothingDownstreamResolved(es, trace, steps, k + 1, steps[k].node, m);
  }

  /** What the shared set saves costs nothing: from a sound set the incremental walk leaves every node in the
      state a walk with a fresh set would have left it in. */
  lemma IncrementalEqualsFresh(es: set<(string, string)>, s: Run, n: string,
                               v: set<string>, crossed: set<string>, freshV: set<string>, freshCrossed: set<string>)
    requires Sound(es, s)
    requires Walked(es, s.visited, n, v) && CrossedTargets(es, s.visited, v, crossed)
    requires Walked(es, {}, n, freshV) && CrossedTargets(es, {}, freshV, freshCrossed)
    ensures StaledAll(s.states, crossed) == StaledAll(s.states, freshCrossed)
  {
    WalkedStaysClosed(es, s.visited, n, v);
    WalkedStaysClosed(es, {}, n, freshV);
    forall m | IsResolved(s, m) ensures m in crossed <==> m in freshCrossed {
      if m in freshCrossed {
        var a :| a in freshV && (a, m) in es;
        assert a in v;
        assert a !in s.visited;
        assert a in v - s.visited;
      }
      if m in crossed {
        var a :| a in v - s.visited && (a, m) in es;
        assert Reach(es, n, a);
        assert a in freshV - {};
      }
    }
  }

  // ----- A caller that never takes a node back out

  /** A node is executed, becomes RESOLVED, and then marks what lies downstream of it. */
  ghost predicate IsExecute(es: set<(string, string)>, s: Run, n: string, t: Run) {
    && n in s.states
    && Walked(es, s.visited, n, t.visited)
    && exists crossed :: CrossedTargets(es, s.visited, t.visited, crossed)
                      && t.states == StaledAll(s.states[n := RESOLVED], crossed)
  }

  ghost predicate IsExecution(es: set<(string, string)>, trace: seq<Run>, order: seq<string>) {
    && |trace| == |order| + 1 && trace[0].visited == {}
    && forall i :: 0 <= i < |order| ==> IsExecute(es, trace[i], order[i], trace[i + 1])
  }

  /** No node is downstream of one executed after it, nor of itself. */
  ghost predicate Topological(es: set<(string, string)>, order: seq<string>) {
    forall i, j :: 0 <= i <= j < |order| ==> !ReachPlus(es, order[j], order[i])
  }

  /** The visited set is closed, and what is in it was executed in this run or is not RESOLVED. */
  ghost predicate MarkedOrExecuted(es: set<(string, string)>, s: Run, executed: seq<string>) {
    && Closed(es, s.visited)
    && (forall n :: n in executed ==> n in s.visited)
    && (forall n :: n in s.visited ==> n in executed || !IsResolved(s, n))
  }

  lemma {:induction false} ExecutionKeepsMarks(es: set<(string, string)>, trace: seq<Run>, order: seq<string>, k: nat)
    requires IsExecution(es, trace, order) && k <= |order|
    ensures MarkedOrExecuted(es, trace[k], order[..k])
  {
    if k > 0 {
      ExecutionKeepsMarks(es, trace, order, k - 1);
      var s, t, n := trace[k - 1], trace[k], order[k - 1];
      assert IsExecute(es, s, n, t);
      assert order[..k] == order[..k - 1] + [n];
      WalkedStaysClosed(es, s.visited, n, t.visited);
      ReachRefl(es, n);
      var crossed :| CrossedTargets(es, s.visited, t.visited, crossed)
                  && t.states == StaledAll(s.states[n := RESOLVED], crossed);
      forall m | m in t.visited && m !in order[..k] ensures !IsResolved(t, m) {
        if m !in s.visited {
          ReachCases(Avoiding(es, s.visited), n, m);
          var a := PlusLast(Avoiding(es, s.visited), n, m);
          assert a in t.visited - s.visited by { AvoidingStaysOut(es, s.visited, n, a); }
          assert m in crossed;
        }
      }
    }
  }

  /** When nodes are executed in data order, after each one nothing downstream of it is RESOLVED, although most
      of the walks stop at once. */
  lemma ExecutedMarksDownstream(es: set<(string, string)>, trace: seq<Run>, order: seq<string>, k: nat, m: string)
    requires IsExecution(es, trace, order) && Topological(es, order)
    requires k < |order| && ReachPlus(es, order[k], m)
    ensures !IsResolved(trace[k + 1], m)
  {
    ExecutionKeepsMarks(es, trace, order, k + 1);
    assert order[k] in order[..k + 1];
    PlusReach(es, order[k], m);
    ReachStaysIn(es, trace[k + 1].visited, order[k], m);
    assert forall i :: 0 <= i < k + 1 ==> order[i] != m;
  }
}
