/** Running a loop body once per iteration: in order on one flow that is used again, or on one flow per iteration. */
module LoopRuns {
  import opened Options

  datatype ControlAction = Add | Skip | Break

  /** What one run of the body leaves: whether it finished, the exit it took, its result and its output values. */
  datatype Pass<+V> = Pass(succeeded: bool, action: ControlAction, result: Option<V>, outputs: map<string, V>)

  type Values<V> = map<string, V>

  /** A pass is decided by the values on the packaged start node. */
  type Body<!V> = Values<V> -> Pass<V>

  /** `base` is what a new flow's start node holds; `params` what each iteration sets on it. */
  datatype Loop<!V> = Loop(base: Values<V>, params: seq<Values<V>>, body: Body<V>) {
    function Total(): nat { |params| }
  }

  // ----- The start node's values

  /** On a flow that is used again, what earlier iterations set stays. */
  function Reused<V>(l: Loop<V>, i: nat): Values<V>
    requires i < l.Total()
  {
    (if i == 0 then l.base else Reused(l, i - 1)) + l.params[i]
  }

  function Separate<V>(l: Loop<V>, i: nat): Values<V>
    requires i < l.Total()
  {
    l.base + l.params[i]
  }

  function ReusedPass<V>(l: Loop<V>, i: nat): Pass<V>
    requires i < l.Total()
  {
    l.body(Reused(l, i))
  }

  function SeparatePass<V>(l: Loop<V>, i: nat): Pass<V>
    requires i < l.Total()
  {
    l.body(Separate(l, i))
  }

  // ----- In order, on one flow

  datatype Run<+V> = Run(results: map<nat, V>, successful: seq<nat>, failures: seq<nat>, skipped: nat, broke: bool,
                         outputs: map<string, V>)

  function Collected<V>(results: map<nat, V>, i: nat, p: Pass<V>): map<nat, V> {
    if p.result.Some? then results[i := p.result.value] else results
  }

  function OnePass<V>(r: Run<V>, i: nat, p: Pass<V>): Run<V> {
    var s := if p.succeeded then r.(successful := r.successful + [i]) else r.(failures := r.failures + [i]);
    var t := s.(outputs := p.outputs);
    match p.action
    case Skip => t.(skipped := t.skipped + 1)
    case Break => t.(results := Collected(t.results, i, p), broke := true)
    case Add => t.(results := Collected(t.results, i, p))
  }

  /** After at most `n` iterations; none follows a break. */
  function InOrder<V>(l: Loop<V>, n: nat): Run<V>
    requires n <= l.Total()
  {
    if n == 0 then Run(map[], [], [], 0, false, map[])
    else
      var r := InOrder(l, n - 1);
      if r.broke then r else OnePass(r, n - 1, ReusedPass(l, n - 1))
  }

  /** The values for the packaged nodes: found only when the successful iterations are the first ones, without a gap. */
  function LastInOrder<V>(r: Run<V>): Values<V> {
    if r.successful != [] && Last(r.successful) == |r.successful| - 1 then r.outputs else map[]
  }

  /** The collected results below `n`, by iteration. */
  function Sorted<V>(results: map<nat, V>, n: nat): seq<V> {
    if n == 0 then []
    else Sorted(results, n - 1) + if n - 1 in results then [results[n - 1]] else []
  }

  datatype Outcome<+V> = Listed(results: seq<V>, last: map<string, V>) | Raised(failures: seq<nat>)

  /** Failures end the loop with an error, unless it was broken off. */
  function Sequential<V>(l: Loop<V>): Outcome<V> {
    var r := InOrder(l, l.Total());
    if !r.broke && r.failures != [] then Raised(r.failures)
    else Listed(Sorted(r.results, l.Total()), LastInOrder(r))
  }

  // ----- One flow per iteration

  /** Control exits are not looked at; an iteration without a result gets `none`. */
  function Parallel<V>(l: Loop<V>, none: V): Outcome<V> {
    Listed(seq(l.Total(), i requires 0 <= i < l.Total() =>
             var p := SeparatePass(l, i); if p.result.Some? then p.result.value else none),
           if l.Total() == 0 then map[] else SeparatePass(l, l.Total() - 1).outputs)
  }

  // ----- Flows

  /** A deserialized flow: its start node's values, and what its last run left. */
  class Flow<V(==)> {
    var start: Values<V>
    var pass: Pass<V>

    constructor (base: Values<V>)
      ensures start == base && pass == Pass(false, Add, None, map[])
    {
      start, pass := base, Pass(false, Add, None, map[]);
    }

    method SetAll(params: Values<V>)
      modifies `start
      ensures start == old(start) + params
    {
      var left := params.Keys;
      while left != {}
        invariant left <= params.Keys
        invariant start == old(start) + (params - left)
        decreases |left|
      {
        var name :| name in left;
        start := start[name := params[name]];
        left := left - {name};
      }
      assert params - {} == params;
    }

    method Execute(body: Body<V>)
      modifies `pass
      ensures pass == body(start)
    {
      pass := body(start);
    }
  }

  method Collect<V>(before: Run<V>, i: nat, p: Pass<V>) returns (r: Run<V>)
    ensures r == OnePass(before, i, p)
  {
    r := before;
    if p.succeeded {
      r := r.(successful := r.successful + [i]);
    } else {
      r := r.(failures := r.failures + [i]);
    }
    r := r.(outputs := p.outputs);
    if p.action == Skip {
      return r.(skipped := r.skipped + 1);
    }
    if p.result.Some? {
      r := r.(results := r.results[i := p.result.value]);
    }
    if p.action == Break {
      r := r.(broke := true);
    }
  }

  method RunInOrder<V(==)>(l: Loop<V>) returns (r: Run<V>)
    ensures r == InOrder(l, l.Total())
  {
    hide OnePass;
    r := Run(map[], [], [], 0, false, map[]);
    var flow := new Flow<V>(l.base);
    for i := 0 to l.Total()
      invariant r == InOrder(l, i) && !r.broke && fresh(flow)
      invariant flow.start == if i == 0 then l.base else Reused(l, i - 1)
    {
      flow.SetAll(l.params[i]);
      flow.Execute(l.body);
      r := Collect(r, i, flow.pass);
      if r.broke {
        BrokenStays(l, i + 1, l.Total());
        break;
      }
    }
  }

  lemma {:induction false} BrokenStays<V>(l: Loop<V>, m: nat, n: nat)
    requires m <= n <= l.Total() && InOrder(l, m).broke
    ensures InOrder(l, n) == InOrder(l, m)
  {
    hide OnePass, ReusedPass;
    if m < n { BrokenStays(l, m, n - 1); }
  }

  method ListInOrder<V(==)>(l: Loop<V>) returns (o: Outcome<V>)
    ensures o == Sequential(l)
  {
    var r := RunInOrder(l);
    if !r.broke && r.failures != [] { return Raised(r.failures); }
    var list := [];
    for i := 0 to l.Total()
      invariant list == Sorted(r.results, i)
    {
      if i in r.results { list := list + [r.results[i]]; }
    }
    o := Listed(list, LastInOrder(r));
  }

  ghost predicate IsOrder(order: seq<nat>, n: nat) {
    |order| == n && (forall k :: 0 <= k < n ==> order[k] < n) && forall i | 0 <= i < n :: i in order
  }

  /** The flows exist and hold their values before any of them runs; then they run in whatever order they are given the
      chance to, `order`, and nothing the loop yields depends on it. */
  method ListInParallel<V(==)>(l: Loop<V>, none: V, order: seq<nat>) returns (o: Outcome<V>)
    requires IsOrder(order, l.Total())
    ensures o == Parallel(l, none)
  {
    var flows: seq<Flow<V>> := [];
    for i := 0 to l.Total()
      invariant |flows| == i && forall k :: 0 <= k < i ==> fresh(flows[k]) && flows[k].start == Separate(l, k)
      invariant forall j, k :: 0 <= j < k < i ==> flows[j] != flows[k]
    {
      var flow := new Flow<V>(l.base);
      flow.SetAll(l.params[i]);
      flows := flows + [flow];
    }
    for n := 0 to |order|
      invariant forall k :: 0 <= k < |flows| ==> fresh(flows[k]) && flows[k].start == Separate(l, k)
      invariant forall k :: 0 <= k < n ==> flows[order[k]].pass == SeparatePass(l, order[k])
    {
      flows[order[n]].Execute(l.body);
    }
    var list := [];
    for i := 0 to l.Total()
      invariant |list| == i && forall k :: 0 <= k < i ==>
        list[k] == var p := SeparatePass(l, k); if p.result.Some? then p.result.value else none
    {
      assert i in order;
      list := list + [if flows[i].pass.result.Some? then flows[i].pass.result.value else none];
    }
    assert l.Total() > 0 ==> l.Total() - 1 in order;
    o := Listed(list, if l.Total() == 0 then map[] else flows[l.Total() - 1].pass.outputs);
  }

  /** On the flow that is used again a parameter has the value the last iteration that set it gave it; on a flow of its
      own, the one its iteration gives it. What no iteration set is as the flow was made. */
  lemma {:induction false} StartValueIs<V>(l: Loop<V>, i: nat, k: string, j: nat)
    requires j <= i < l.Total() && forall m :: j < m <= i ==> k !in l.params[m]
    ensures k in l.params[j] ==> k in Reused(l, i) && Reused(l, i)[k] == l.params[j][k]
    ensures j == 0 && k !in l.params[0] ==>
      (k in Reused(l, i) <==> k in l.base) && (k in l.base ==> Reused(l, i)[k] == l.base[k])
    ensures k in Separate(l, i) <==> k in l.params[i] || k in l.base
    ensures k in Separate(l, i) ==> Separate(l, i)[k] == if k in l.params[i] then l.params[i][k] else l.base[k]
  {
    if j < i { StartValueIs(l, i - 1, k, j); }
  }

  // ----- When both start each pass from the same values

  /** Iteration `i - 1` sets `k` and iteration `i` does not, so it stays as `i - 1` set it. */
  predicate Stays<V>(l: Loop<V>, i: nat, k: string)
    requires 0 < i < l.Total()
  {
    k in l.params[i - 1] && k !in l.params[i]
  }

  /** What stays is what a new flow holds anyway. */
  ghost predicate Harmless<V(!new)>(l: Loop<V>, i: nat)
    requires 0 < i < l.Total()
  {
    forall k :: Stays(l, i, k) ==> k in l.base && l.base[k] == l.params[i - 1][k]
  }

  ghost predicate NothingLeftOver<V(!new)>(l: Loop<V>) {
    forall i :: 0 < i < l.Total() ==> Harmless(l, i)
  }

  ghost predicate SameStarts<V(!new)>(l: Loop<V>) {
    forall i :: 0 <= i < l.Total() ==> Reused(l, i) == Separate(l, i)
  }

  lemma StartsStep<V(!new)>(l: Loop<V>, i: nat)
    requires 0 < i < l.Total() && Reused(l, i - 1) == Separate(l, i - 1)
    ensures Reused(l, i) == Separate(l, i) <==> Harmless(l, i)
  {
    var a, b := l.base + l.params[i - 1] + l.params[i], l.base + l.params[i];
    assert Reused(l, i) == a && Separate(l, i) == b;
    forall k | Stays(l, i, k) ensures k in a && a[k] == l.params[i - 1][k] {}
    if Harmless(l, i) {
      forall k | k in a ensures k in b && a[k] == b[k] {
        if k in l.params[i - 1] && k !in l.params[i] { assert Stays(l, i, k); }
      }
      assert a.Keys == b.Keys;
    } else {
      var k :| Stays(l, i, k) && !(k in l.base && l.base[k] == l.params[i - 1][k]);
      assert k in b <==> k in l.base;
    }
  }

  lemma {:induction false} StartsTo<V(!new)>(l: Loop<V>, n: nat)
    requires NothingLeftOver(l) && n < l.Total()
    ensures Reused(l, n) == Separate(l, n)
  {
    if n > 0 {
      StartsTo(l, n - 1);
      StartsStep(l, n);
    }
  }

  /** The two start every pass from the same values if and only if nothing is left over. */
  lemma SameStartsIff<V(!new)>(l: Loop<V>)
    ensures SameStarts(l) <==> NothingLeftOver(l)
  {
    if NothingLeftOver(l) {
      forall i | 0 <= i < l.Total() ensures Reused(l, i) == Separate(l, i) { StartsTo(l, i); }
    }
    if SameStarts(l) {
      forall i | 0 < i < l.Total() ensures Harmless(l, i) { StartsStep(l, i); }
    }
  }

  lemma SameKeysLeaveNothing<V(!new)>(l: Loop<V>)
    requires forall i :: 0 < i < l.Total() ==> l.params[i].Keys == l.params[i - 1].Keys
    ensures NothingLeftOver(l)
  {
    forall i | 0 < i < l.Total() ensures Harmless(l, i) {
      assert forall k :: k in l.params[i] <==> k in l.params[i].Keys;
    }
  }

  // ----- What each iteration sets

  datatype Source = Index | CurrentItem | Other

  /** A start parameter and the loop output that feeds it. */
  datatype Feed = Feed(source: Source, param: string)

  /** What the loop node offers: loop values if it has any, and items, where None stands for an item that is None. */
  datatype Offers<!V> = Offers(indexValues: seq<V>, items: seq<Option<V>>, asValue: nat -> V)

  function Offered<V>(o: Offers<V>, source: Source, i: nat): Option<V> {
    match source
    case Index => Some(if i < |o.indexValues| then o.indexValues[i] else o.asValue(i))
    case CurrentItem => if i < |o.items| then o.items[i] else None
    case Other => None
  }

  /** After the first `n` feeds; an offer of None sets nothing. */
  function Fed<V>(o: Offers<V>, feeds: seq<Feed>, n: nat, i: nat): Values<V>
    requires n <= |feeds|
  {
    if n == 0 then map[]
    else
      var before := Fed(o, feeds, n - 1, i);
      match Offered(o, feeds[n - 1].source, i)
      case Some(v) => before[feeds[n - 1].param := v]
      case None => before
  }

  /** Values from outside the loop fill in what the iteration does not set. */
  function ParamsOf<V>(o: Offers<V>, feeds: seq<Feed>, upstream: Values<V>, i: nat): Values<V> {
    upstream + Fed(o, feeds, |feeds|, i)
  }

  method ParametersPerIteration<V(==)>(o: Offers<V>, feeds: seq<Feed>, upstream: Values<V>, total: nat)
    returns (params: seq<Values<V>>)
    ensures |params| == total && forall i :: 0 <= i < total ==> params[i] == ParamsOf(o, feeds, upstream, i)
  {
    params := [];
    for i := 0 to total
      invariant |params| == i && forall k :: 0 <= k < i ==> params[k] == ParamsOf(o, feeds, upstream, k)
    {
      var values: Values<V> := map[];
      for n := 0 to |feeds|
        invariant values == Fed(o, feeds, n, i)
      {
        var value := Offered(o, feeds[n].source, i);
        if value.Some? { values := values[feeds[n].param := value.value]; }
      }
      params := params + [FillIn(values, upstream)];
    }
  }

  function FillIn<V>(values: Values<V>, upstream: Values<V>): (r: Values<V>)
    ensures r == upstream + values
  {
    values + map k | k in upstream && k !in values :: upstream[k]
  }

  /** What a source offers an iteration: the loop's value for it, or its number when there is none; its item, if that is
      not None; nothing else. */
  predicate Gives<V(==)>(o: Offers<V>, source: Source, i: nat, v: V) {
    || (source == Index && v == if i < |o.indexValues| then o.indexValues[i] else o.asValue(i))
    || (source == CurrentItem && i < |o.items| && o.items[i] == Some(v))
  }

  lemma {:induction false} FedKeeps<V>(o: Offers<V>, feeds: seq<Feed>, m: nat, n: nat, i: nat, param: string)
    requires m <= n <= |feeds| && forall k, v :: m <= k < n && feeds[k].param == param ==> !Gives(o, feeds[k].source, i, v)
    ensures param in Fed(o, feeds, n, i) <==> param in Fed(o, feeds, m, i)
    ensures param in Fed(o, feeds, n, i) ==> Fed(o, feeds, n, i)[param] == Fed(o, feeds, m, i)[param]
  {
    if m < n {
      FedKeeps(o, feeds, m, n - 1, i, param);
      var offer := Offered(o, feeds[n - 1].source, i);
      if feeds[n - 1].param == param && offer.Some? { assert Gives(o, feeds[n - 1].source, i, offer.value); }
    }
  }

  /** A parameter gets what the last feed for it that gives anything gives, */
  lemma ParamIs<V>(o: Offers<V>, feeds: seq<Feed>, upstream: Values<V>, i: nat, n: nat, v: V)
    requires n < |feeds| && Gives(o, feeds[n].source, i, v)
    requires forall k, w :: n < k < |feeds| && feeds[k].param == feeds[n].param ==> !Gives(o, feeds[k].source, i, w)
    ensures feeds[n].param in ParamsOf(o, feeds, upstream, i) && ParamsOf(o, feeds, upstream, i)[feeds[n].param] == v
  {
    FedKeeps(o, feeds, n + 1, |feeds|, i, feeds[n].param);
  }

  /** and without one what comes from outside the loop, if anything. */
  lemma ParamElse<V>(o: Offers<V>, feeds: seq<Feed>, upstream: Values<V>, i: nat, param: string)
    requires forall k, v :: 0 <= k < |feeds| && feeds[k].param == param ==> !Gives(o, feeds[k].source, i, v)
    ensures var params := ParamsOf(o, feeds, upstream, i);
      (param in params <==> param in upstream) && (param in params ==> params[param] == upstream[param])
  {
    FedKeeps(o, feeds, 0, |feeds|, i, param);
  }

  lemma {:induction false} SameFeedKeys<V>(o: Offers<V>, feeds: seq<Feed>, n: nat, i: nat, j: nat)
    requires n <= |feeds| && i < |o.items| && j < |o.items| && o.items[i].Some? && o.items[j].Some?
    ensures Fed(o, feeds, n, i).Keys == Fed(o, feeds, n, j).Keys
  {
    if n > 0 { SameFeedKeys(o, feeds, n - 1, i, j); }
  }

  /** When every iteration has an item that is not None, nothing is left over. */
  lemma ItemsLeaveNothing<V(!new)>(l: Loop<V>, o: Offers<V>, feeds: seq<Feed>, upstream: Values<V>)
    requires forall i :: 0 <= i < l.Total() ==> l.params[i] == ParamsOf(o, feeds, upstream, i)
    requires l.Total() <= |o.items| && forall i :: 0 <= i < l.Total() ==> o.items[i].Some?
    ensures NothingLeftOver(l)
  {
    forall i | 0 < i < l.Total() ensures l.params[i].Keys == l.params[i - 1].Keys {
      SameFeedKeys(o, feeds, |feeds|, i, i - 1);
    }
    SameKeysLeaveNothing(l);
  }

  // ----- What the run in order collects

  ghost predicate Reached<V(!new)>(l: Loop<V>, i: nat)
    requires i <= l.Total()
  {
    forall j :: 0 <= j < i ==> ReusedPass(l, j).action != Break
  }

  ghost predicate Counts<V(!new)>(l: Loop<V>, i: nat)
    requires i < l.Total()
  {
    Reached(l, i) && ReusedPass(l, i).action != Skip && ReusedPass(l, i).result.Some?
  }

  lemma ReachedStep<V(!new)>(l: Loop<V>, n: nat)
    requires 0 < n <= l.Total()
    ensures Reached(l, n) <==> Reached(l, n - 1) && ReusedPass(l, n - 1).action != Break
    ensures forall i :: n <= i <= l.Total() && !Reached(l, n) ==> !Reached(l, i)
  {
  }

  lemma {:induction false} BrokenIff<V(!new)>(l: Loop<V>, n: nat)
    requires n <= l.Total()
    ensures InOrder(l, n).broke <==> !Reached(l, n)
  {
    if n > 0 {
      BrokenIff(l, n - 1);
      ReachedStep(l, n);
    }
  }

  lemma OnePassKeeps<V(!new)>(r: Run<V>, i: nat, p: Pass<V>)
    ensures OnePass(r, i, p).results == if p.action != Skip && p.result.Some? then r.results[i := p.result.value] else r.results
    ensures OnePass(r, i, p).failures == if p.succeeded then r.failures else r.failures + [i]
    ensures OnePass(r, i, p).skipped == if p.action == Skip then r.skipped + 1 else r.skipped
    ensures OnePass(r, i, p).successful == if p.succeeded then r.successful + [i] else r.successful
  {
  }

  lemma {:induction false} CollectedIn<V(!new)>(l: Loop<V>, n: nat)
    requires n <= l.Total()
    ensures forall i: nat :: i in InOrder(l, n).results <==> i < n && Counts(l, i)
    ensures forall i: nat :: i in InOrder(l, n).results ==> ReusedPass(l, i).result == Some(InOrder(l, n).results[i])
  {
    hide Reached, OnePass, ReusedPass;
    if n > 0 {
      CollectedIn(l, n - 1);
      BrokenIff(l, n - 1);
      ReachedStep(l, n);
      OnePassKeeps(InOrder(l, n - 1), n - 1, ReusedPass(l, n - 1));
    }
  }

  lemma {:induction false} FailedIn<V(!new)>(l: Loop<V>, n: nat)
    requires n <= l.Total()
    ensures forall i: nat :: i in InOrder(l, n).failures <==> i < n && Reached(l, i) && !ReusedPass(l, i).succeeded
  {
    hide Reached, OnePass, ReusedPass;
    if n > 0 {
      FailedIn(l, n - 1);
      BrokenIff(l, n - 1);
      ReachedStep(l, n);
      OnePassKeeps(InOrder(l, n - 1), n - 1, ReusedPass(l, n - 1));
    }
  }

  lemma {:induction false} SucceededIn<V(!new)>(l: Loop<V>, n: nat)
    requires n <= l.Total()
    ensures forall i: nat :: i in InOrder(l, n).successful <==> i < n && Reached(l, i) && ReusedPass(l, i).succeeded
  {
    hide Reached, OnePass, ReusedPass;
    if n > 0 {
      SucceededIn(l, n - 1);
      BrokenIff(l, n - 1);
      ReachedStep(l, n);
      OnePassKeeps(InOrder(l, n - 1), n - 1, ReusedPass(l, n - 1));
    }
  }

  /** The iterations below `n` that were skipped. */
  ghost function Skips<V(!new)>(l: Loop<V>, n: nat): set<nat>
    requires n <= l.Total()
  {
    set i: nat | i < n && Reached(l, i) && ReusedPass(l, i).action == Skip
  }

  lemma SkipsStep<V(!new)>(l: Loop<V>, n: nat)
    requires 0 < n <= l.Total()
    ensures |Skips(l, n)| ==
      |Skips(l, n - 1)| + if Reached(l, n - 1) && ReusedPass(l, n - 1).action == Skip then 1 else 0
  {
    hide Reached, ReusedPass;
    var skips := Reached(l, n - 1) && ReusedPass(l, n - 1).action == Skip;
    assert Skips(l, n) == Skips(l, n - 1) + if skips then {n - 1} else {};
  }

  lemma {:induction false} SkippedIs<V(!new)>(l: Loop<V>, n: nat)
    requires n <= l.Total()
    ensures InOrder(l, n).skipped == |Skips(l, n)|
  {
    hide Reached, OnePass, ReusedPass;
    if n == 0 {
      assert Skips(l, 0) == {};
    } else {
      SkippedIs(l, n - 1);
      SkipsStep(l, n);
      hide Skips;
      BrokenIff(l, n - 1);
      OnePassKeeps(InOrder(l, n - 1), n - 1, ReusedPass(l, n - 1));
    }
  }

  /** How many iterations below `n` have a result. */
  function ResultsBelow<V>(results: map<nat, V>, n: nat): nat {
    |Sorted(results, n)|
  }

  /** The results are listed in the order of their iterations: each stands after those of the earlier ones, and nothing
      else is listed. */
  lemma {:induction false} SortedAt<V>(results: map<nat, V>, n: nat, i: nat)
    requires i < n
    ensures ResultsBelow(results, i + 1) == ResultsBelow(results, i) + if i in results then 1 else 0
    ensures ResultsBelow(results, i + 1) <= ResultsBelow(results, n)
    ensures i in results ==> Sorted(results, n)[ResultsBelow(results, i)] == results[i]
    ensures ResultsBelow(results, 0) == 0
    decreases n
  {
    if i < n - 1 { SortedAt(results, n - 1, i); }
  }

  lemma {:induction false} SortedAll<V>(results: map<nat, V>, n: nat)
    ensures |Sorted(results, n)| <= n
    ensures |Sorted(results, n)| == n <==> forall i :: 0 <= i < n ==> i in results
    ensures (forall i :: 0 <= i < n ==> i in results) ==> forall i :: 0 <= i < n ==> Sorted(results, n)[i] == results[i]
  {
    if n > 0 { SortedAll(results, n - 1); }
  }

  // ----- Agreement

  ghost predicate AllCollected<V(!new)>(l: Loop<V>) {
    forall i :: 0 <= i < l.Total() ==>
      var p := SeparatePass(l, i);
      p.action != Skip && p.result.Some? && (p.action == Break ==> i == l.Total() - 1)
  }

  ghost predicate NoneFailed<V(!new)>(l: Loop<V>) {
    forall i :: 0 <= i < l.Total() ==> SeparatePass(l, i).succeeded
  }

  lemma AllCountIff<V(!new)>(l: Loop<V>)
    requires SameStarts(l)
    ensures (forall i :: 0 <= i < l.Total() ==> Counts(l, i)) <==> AllCollected(l)
  {
    forall i | 0 <= i < l.Total() ensures ReusedPass(l, i) == SeparatePass(l, i) {}
    if forall i :: 0 <= i < l.Total() ==> Counts(l, i) {
      forall i | 0 <= i < l.Total()
        ensures var p := SeparatePass(l, i);
          p.action != Skip && p.result.Some? && (p.action == Break ==> i == l.Total() - 1)
      {
        assert Counts(l, i);
        if i < l.Total() - 1 { assert Counts(l, l.Total() - 1); }
      }
    }
  }

  lemma AllReached<V(!new)>(l: Loop<V>, i: nat)
    requires SameStarts(l) && AllCollected(l) && i < l.Total()
    ensures Reached(l, i) && ReusedPass(l, i) == SeparatePass(l, i)
  {
    AllCountIff(l);
    assert Counts(l, i);
  }

  lemma NoFailuresIff<V(!new)>(l: Loop<V>)
    requires SameStarts(l) && AllCollected(l)
    ensures InOrder(l, l.Total()).failures == [] <==> NoneFailed(l)
  {
    hide InOrder, Reached, AllCollected, SameStarts, ReusedPass, SeparatePass;
    var n := l.Total();
    FailedIn(l, n);
    var failures := InOrder(l, n).failures;
    if failures != [] {
      assert failures[0] in failures;
      AllReached(l, failures[0]);
    }
    if !NoneFailed(l) {
      var i :| 0 <= i < n && !SeparatePass(l, i).succeeded;
      AllReached(l, i);
      assert i in failures;
    }
  }

  lemma BrokenLast<V(!new)>(l: Loop<V>)
    requires SameStarts(l) && AllCollected(l)
    ensures InOrder(l, l.Total()).broke <==> l.Total() > 0 && SeparatePass(l, l.Total() - 1).action == Break
  {
    hide InOrder, Reached, AllCollected, SameStarts, ReusedPass, SeparatePass;
    var n := l.Total();
    BrokenIff(l, n);
    if n > 0 {
      AllReached(l, n - 1);
      ReachedStep(l, n);
    } else {
      NoneReached(l);
    }
  }

  lemma NoneReached<V(!new)>(l: Loop<V>)
    ensures Reached(l, 0)
  {
  }

  /** From the same starts, the two yield the same list of results if and only if no iteration is skipped or lacks a
      result, none but the last breaks off, and none fails unless the last breaks off. */
  lemma ListsAgreeIff<V(!new)>(l: Loop<V>, none: V)
    requires SameStarts(l)
    ensures Sequential(l).Listed? && Sequential(l).results == Parallel(l, none).results <==>
      AllCollected(l) && (NoneFailed(l) || (l.Total() > 0 && SeparatePass(l, l.Total() - 1).action == Break))
  {
    var n := l.Total();
    var r := InOrder(l, n);
    CollectedIn(l, n);
    SortedAll(r.results, n);
    AllCountIff(l);
    hide InOrder, Reached, Sorted;
    if AllCollected(l) {
      NoFailuresIff(l);
      BrokenLast(l);
      forall i | 0 <= i < n ensures Sorted(r.results, n)[i] == Parallel(l, none).results[i] {
        assert Counts(l, i) && ReusedPass(l, i) == SeparatePass(l, i);
      }
      assert Sorted(r.results, n) == Parallel(l, none).results;
    } else {
      assert |Sorted(r.results, n)| != n;
    }
  }

  // ----- The values the loop leaves on the packaged nodes

  /** How many passes run before the loop ends or is broken off. */
  function Executed<V>(l: Loop<V>, n: nat): (e: nat)
    requires n <= l.Total()
    ensures e <= n
  {
    if n == 0 then 0 else if InOrder(l, n - 1).broke then Executed(l, n - 1) else n
  }

  function Last(s: seq<nat>): nat
    requires s != []
  {
    s[|s| - 1]
  }

  /** Some pass failed before the last one that succeeded. */
  predicate FailedBefore(successful: seq<nat>, failures: seq<nat>) {
    failures != [] && successful != [] && failures[0] < Last(successful)
  }

  /** What the two lists say of the first `e` passes. */
  predicate Tallied(s: seq<nat>, f: seq<nat>, e: nat) {
    && |s| + |f| == e
    && (s != [] ==> Last(s) < e)
    && (f != [] ==> f[0] <= Last(f) < e)
    && (e > 0 ==> (s != [] && Last(s) == e - 1) || (f != [] && Last(f) == e - 1))
    && (s != [] && f != [] ==> Last(s) != Last(f))
    && (s != [] ==> (Last(s) == |s| - 1 <==> !FailedBefore(s, f)))
  }

  lemma TalliedMore(s: seq<nat>, f: seq<nat>, e: nat)
    requires Tallied(s, f, e)
    ensures Tallied(s + [e], f, e + 1) && Tallied(s, f + [e], e + 1)
  {
    assert f != [] ==> (f + [e])[0] == f[0];
  }

  /** What one more iteration does to the two lists and the outputs. */
  lemma ExecutedStep<V>(l: Loop<V>, n: nat)
    requires 0 < n <= l.Total()
    ensures InOrder(l, n - 1).broke ==> InOrder(l, n) == InOrder(l, n - 1) && Executed(l, n) == Executed(l, n - 1)
    ensures !InOrder(l, n - 1).broke ==>
      var before, p := InOrder(l, n - 1), ReusedPass(l, n - 1);
      && InOrder(l, n).successful == (if p.succeeded then before.successful + [n - 1] else before.successful)
      && InOrder(l, n).failures == (if p.succeeded then before.failures else before.failures + [n - 1])
      && InOrder(l, n).outputs == p.outputs && Executed(l, n) == n
  {
    hide ReusedPass;
  }

  lemma NoneExecuted<V>(l: Loop<V>)
    ensures Executed(l, 0) == 0 && InOrder(l, 0) == Run(map[], [], [], 0, false, map[]) && Tallied([], [], 0)
  {
  }

  lemma {:induction false} TalliedIn<V>(l: Loop<V>, n: nat)
    requires n <= l.Total()
    ensures var r, e := InOrder(l, n), Executed(l, n);
      && e <= n && Tallied(r.successful, r.failures, e)
      && r.outputs == (if e == 0 then map[] else ReusedPass(l, e - 1).outputs)
      && (!r.broke ==> e == n)
  {
    hide InOrder, Executed, Tallied, ReusedPass;
    NoneExecuted(l);
    if n > 0 {
      TalliedIn(l, n - 1);
      ExecutedStep(l, n);
      var r := InOrder(l, n - 1);
      if !r.broke { TalliedMore(r.successful, r.failures, n - 1); }
    }
  }

  /** What is meant for the packaged nodes: the output values of the last successful pass. */
  ghost function LastSuccessful<V>(l: Loop<V>): Values<V> {
    TalliedIn(l, l.Total());
    var s := InOrder(l, l.Total()).successful;
    if s == [] then map[] else ReusedPass(l, Last(s)).outputs
  }

  lemma LastOfBoth(s: seq<nat>, f: seq<nat>, e: nat)
    requires Tallied(s, f, e)
    ensures s != [] ==> Last(s) < e
    ensures f != [] ==> Last(f) < e
    ensures s != [] && f == [] ==> Last(s) == e - 1 && !FailedBefore(s, f)
    ensures s != [] && f != [] && !FailedBefore(s, f) ==> Last(f) == e - 1
  {
  }

  /** Values are left only if a pass succeeded and none failed before the last that did. */
  lemma LastFound<V>(l: Loop<V>)
    ensures var r, e := InOrder(l, l.Total()), Executed(l, l.Total());
      LastInOrder(r) == if e > 0 && r.successful != [] && !FailedBefore(r.successful, r.failures)
                        then ReusedPass(l, e - 1).outputs else map[]
  {
    TalliedIn(l, l.Total());
    hide InOrder, ReusedPass, Executed, FailedBefore;
  }

  /** The loop leaves what the last successful pass put out if no pass failed. It leaves nothing if one failed before
      the last success, and what the last failure put out if every failure came after a success. */
  lemma LastValuesIff<V>(l: Loop<V>)
    ensures var r := InOrder(l, l.Total());
      && (r.failures == [] || r.successful == [] ==> LastInOrder(r) == LastSuccessful(l))
      && (r.failures != [] && r.successful != [] ==>
            && Last(r.failures) < l.Total()
            && (LastInOrder(r) == LastSuccessful(l) <==>
                if FailedBefore(r.successful, r.failures) then LastSuccessful(l) == map[]
                else ReusedPass(l, Last(r.failures)).outputs == LastSuccessful(l)))
  {
    hide InOrder, ReusedPass, Executed, LastInOrder, FailedBefore, Tallied;
    var r := InOrder(l, l.Total());
    TalliedIn(l, l.Total());
    LastFound(l);
    LastOfBoth(r.successful, r.failures, Executed(l, l.Total()));
  }

  /** The values can be lost: a first pass that fails, and a second that succeeds and breaks off. */
  lemma LastValuesLost<V>(a: V) returns (l: Loop<V>)
    ensures Sequential(l).Listed? && Sequential(l).last == map[]
    ensures InOrder(l, l.Total()).successful == [1] && LastSuccessful(l) == map["y" := a]
  {
    var body: Body<V> := (start: Values<V>) =>
      if "x" in start then Pass(true, Break, Some(a), map["y" := a]) else Pass(false, Add, None, map[]);
    l := Loop(map[], [map[], map["x" := a]], body);
    assert Reused(l, 0) == map[] && Reused(l, 1) == map["x" := a];
    assert InOrder(l, 0) == Run(map[], [], [], 0, false, map[]);
    assert InOrder(l, 1).failures == [0] && InOrder(l, 1).successful == [] && !InOrder(l, 1).broke;
    assert InOrder(l, 2).failures == [0] && InOrder(l, 2).successful == [1] && InOrder(l, 2).broke;
  }

  /** They can be those of a failed pass: a first that succeeds, and a second that fails and breaks off. */
  lemma LastValuesOfAFailure<V>(a: V, b: V) returns (l: Loop<V>)
    ensures Sequential(l).Listed? && Sequential(l).last == map["y" := b]
    ensures InOrder(l, l.Total()).successful == [0] && LastSuccessful(l) == map["y" := a]
  {
    var body: Body<V> := (start: Values<V>) =>
      if "x" in start then Pass(false, Break, Some(b), map["y" := b]) else Pass(true, Add, Some(a), map["y" := a]);
    l := Loop(map[], [map[], map["x" := a]], body);
    assert Reused(l, 0) == map[] && Reused(l, 1) == map["x" := a];
    assert InOrder(l, 0) == Run(map[], [], [], 0, false, map[]);
    assert InOrder(l, 1).successful == [0] && InOrder(l, 1).failures == [] && !InOrder(l, 1).broke;
    assert InOrder(l, 2).successful == [0] && InOrder(l, 2).failures == [1] && InOrder(l, 2).broke;
  }

  /** The first pass succeeds, and no pass succeeds right after one that failed. */
  ghost predicate SuccessesFirst<V(!new)>(l: Loop<V>, n: nat)
    requires n <= l.Total()
  {
    && n > 0 && SeparatePass(l, 0).succeeded
    && forall i :: 0 < i < n && SeparatePass(l, i).succeeded ==> SeparatePass(l, i - 1).succeeded
  }

  lemma SuccessesFirstStep<V(!new)>(l: Loop<V>, n: nat)
    requires 1 < n <= l.Total()
    ensures SuccessesFirst(l, n) <==>
      SuccessesFirst(l, n - 1) && (SeparatePass(l, n - 1).succeeded ==> SeparatePass(l, n - 2).succeeded)
  {
  }

  lemma FailedBeforeMore(s: seq<nat>, f: seq<nat>, e: nat)
    requires Tallied(s, f, e)
    ensures FailedBefore(s + [e], f) <==> f != []
    ensures FailedBefore(s, f + [e]) <==> FailedBefore(s, f)
  {
    assert f != [] ==> (f + [e])[0] == f[0];
  }

  lemma SuccessesFirstOne<V(!new)>(l: Loop<V>)
    requires l.Total() > 0
    ensures SuccessesFirst(l, 1) <==> SeparatePass(l, 0).succeeded
    ensures !FailedBefore([0], []) && !InOrder(l, 0).broke
  {
  }

  lemma NotBrokenBefore<V>(l: Loop<V>, n: nat)
    requires 0 < n <= l.Total() && !InOrder(l, n).broke
    ensures !InOrder(l, n - 1).broke
  {
  }

  lemma {:induction false} SuccessesFirstIff<V(!new)>(l: Loop<V>, n: nat)
    requires 0 < n <= l.Total() && SameStarts(l) && !InOrder(l, n - 1).broke
    ensures var r := InOrder(l, n);
      && (SuccessesFirst(l, n) <==> r.successful != [] && !FailedBefore(r.successful, r.failures))
      && (SuccessesFirst(l, n) && SeparatePass(l, n - 1).succeeded <==> r.failures == [])
  {
    assert ReusedPass(l, n - 1) == SeparatePass(l, n - 1);
    hide InOrder, Executed, SuccessesFirst, SameStarts, ReusedPass, SeparatePass, Tallied, FailedBefore;
    var before := InOrder(l, n - 1);
    ExecutedStep(l, n);
    if n > 1 {
      NotBrokenBefore(l, n - 1);
      SuccessesFirstIff(l, n - 1);
      SuccessesFirstStep(l, n);
      TalliedIn(l, n - 1);
      FailedBeforeMore(before.successful, before.failures, n - 1);
    } else {
      NoneExecuted(l);
      SuccessesFirstOne(l);
    }
  }

  /** With every pass run, when the values the loop leaves are those of the last pass. */
  lemma LastOfAll<V(!new)>(l: Loop<V>)
    requires SameStarts(l) && AllCollected(l) && l.Total() > 0
    ensures LastInOrder(InOrder(l, l.Total())) == SeparatePass(l, l.Total() - 1).outputs <==>
      SuccessesFirst(l, l.Total()) || SeparatePass(l, l.Total() - 1).outputs == map[]
  {
    var n := l.Total();
    hide InOrder, Executed, Reached, AllCollected, SameStarts, ReusedPass, SeparatePass, SuccessesFirst, LastInOrder,
      FailedBefore;
    AllReached(l, n - 1);
    BrokenIff(l, n - 1);
    ExecutedStep(l, n);
    SuccessesFirstIff(l, n);
    LastFound(l);
  }

  /** From the same starts, results and last values are both the same if and only if every iteration is collected and
      none fails; or the last breaks off, and either the failures come after the successes or it puts nothing out. */
  lemma OutcomesAgreeIff<V(!new)>(l: Loop<V>, none: V)
    requires SameStarts(l)
    ensures Sequential(l) == Parallel(l, none) <==>
      AllCollected(l) &&
      (NoneFailed(l) ||
       (l.Total() > 0 && SeparatePass(l, l.Total() - 1).action == Break
        && (SuccessesFirst(l, l.Total()) || SeparatePass(l, l.Total() - 1).outputs == map[])))
  {
    ListsAgreeIff(l, none);
    if AllCollected(l) && l.Total() > 0 { LastOfAll(l); }
    hide Reached, AllCollected, SameStarts, ReusedPass, SeparatePass;
  }

  ghost predicate Plain<V(!new)>(body: Body<V>) {
    forall start :: body(start).succeeded && body(start).action == Add && body(start).result.Some?
  }

  lemma {:induction false} PlainRun<V(!new)>(l: Loop<V>, n: nat)
    requires Plain(l.body) && n <= l.Total()
    ensures var r := InOrder(l, n);
      && |r.successful| == n && (n > 0 ==> r.successful[n - 1] == n - 1 && r.outputs == ReusedPass(l, n - 1).outputs)
      && r.failures == [] && !r.broke
  {
    if n > 0 { PlainRun(l, n - 1); }
  }

  /** For a body that never fails, skips, breaks or lacks a result, and nothing left over, the two are the same:
      results and last values. */
  lemma PlainLoopsAgree<V(!new)>(l: Loop<V>, none: V)
    requires Plain(l.body) && NothingLeftOver(l)
    ensures Sequential(l) == Parallel(l, none)
  {
    SameStartsIff(l);
    forall i | 0 <= i < l.Total()
      ensures SeparatePass(l, i).succeeded && SeparatePass(l, i).action == Add && SeparatePass(l, i).result.Some?
    {
    }
    ListsAgreeIff(l, none);
    PlainRun(l, l.Total());
  }

  /** With something left over, some such body tells the two apart. */
  lemma LeftoverShows<V(!new)>(l: Loop<V>, none: V, a: V, b: V) returns (body: Body<V>)
    requires !NothingLeftOver(l) && a != b
    ensures Plain(body) && Sequential(l.(body := body)) != Parallel(l.(body := body), none)
  {
    SameStartsIff(l);
    var i :| 0 <= i < l.Total() && Reused(l, i) != Separate(l, i);
    var reused := Reused(l, i);
    body := (start: Values<V>) => Pass(true, Add, Some(if start == reused then a else b), map[]);
    var m := l.(body := body);
    SameValues(l, m, i);
    assert ReusedPass(m, i).result == Some(a) && SeparatePass(m, i).result == Some(b);
    PlainAt(m, none, i);
  }

  /** For such a body, where each puts its results. */
  lemma PlainAt<V(!new)>(l: Loop<V>, none: V, i: nat)
    requires Plain(l.body) && i < l.Total()
    ensures Sequential(l).Listed? && |Sequential(l).results| == l.Total() == |Parallel(l, none).results|
    ensures Sequential(l).results[i] == ReusedPass(l, i).result.value
    ensures Parallel(l, none).results[i] == SeparatePass(l, i).result.value
  {
    var n := l.Total();
    PlainRun(l, n);
    CollectedIn(l, n);
    SortedAll(InOrder(l, n).results, n);
    hide InOrder, Sorted;
    forall j | 0 <= j < n ensures Counts(l, j) {}
  }

  lemma {:induction false} SameValues<V(!new)>(l: Loop<V>, m: Loop<V>, i: nat)
    requires i < l.Total() && m.base == l.base && m.params == l.params
    ensures Reused(m, i) == Reused(l, i) && Separate(m, i) == Separate(l, i)
  {
    if i > 0 { SameValues(l, m, i - 1); }
  }
}
