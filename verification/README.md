# A verified model of the Griptape Nodes engine's stateful cores

Griptape Nodes runs workflows of nodes. The parts of its engine and release tooling that are hard to get right are those
that keep shared state across calls: the connection store and its walks, the schedule that packaged loops are cut out of,
the request client's bookkeeping, walks over values that may contain themselves, and the changelog's parse, print and
release steps. This project models them in Dafny and proves what their documentation argues for.

The modules, from the ground up:

- `Options`, `Reachability`, `Sequences`: values that may be missing, paths over a finite set of edges, and a few facts
  about lists.
- `SchedulingGraph`, `Packaging`: the in-degree-zero scheduling graph, and the rewrite that takes packaged nodes out of
  it. A consumer of a packaged node waits for the stand-in in every run; the rewritten schedule can complete exactly when
  no consumer reaches the stand-in outside the package.
- `ConnectionTable`, `Connections`: the connection table with its two nested indexes as a value and as a class, the rules
  on how many connections a parameter takes, and the three walks, each proved to compute exact reachability although
  visited names are shared between calls.
- `StaleMarking`: a whole scheduler run over those walks, in which every started node marks what lies downstream of it
  with one visited set for the run. The set stays closed and free of RESOLVED nodes, so nothing downstream of a started
  node is ever RESOLVED, and each incremental walk leaves the states a walk with a fresh set would leave.
- `RequestTracking`, `RequestClient`: the request client as a step system, one step for each section that holds the lock
  and one for a waiter that cancels without it, and as the class that refines it; and what a batch of requests comes to.
- `ValueGraph`, `Substitution`: walks over containers with identity, sharing and cycles: the plain-data test is exact, and
  substituting leaves gives the mapped value exactly when no cycle has a changed leaf inside it.
- `ChangelogText`, `ChangelogSections`, `ChangelogEntries`, `ChangelogFold`, `ChangelogFoldTwice`: lines and patterns, code
  fences, grouping and printing entries, and folding entry files into the Unreleased section. Folding keeps the entries,
  and folding again changes nothing, exactly under a stated condition.
- `ChangelogRelease`, `ChangelogExtract`, `ChangelogCheck`, `ChangelogWellFormed`: render, roll, extract and check.
  Extracting a released version gives back what rendering showed, and releasing keeps a changelog well formed, each exactly
  under a stated condition.
- `ChangelogPatterns`, `ChangelogParts`, `ChangelogRules`: what the patterns read, what reading, printing, folding and rolling
  a section come to, and which problems the check reports, said of the characters and lines and not of the functions that
  compute it.
- `ProjectAdoption`: project switches that overlap at their awaits, under one lock and one recorded generation.
- `LoopRuns`: running a loop body once per iteration on one flow that is used again, or on one flow per iteration, and
  exactly when the two agree.
- `ListRows`: replacing a list's rows, all or nothing.
- `TraitStates`: the part of a trait's state a save keeps, and exactly when overlaying it restores the state.
- `VariableTemplates`, `VariableResolution`: whether substituting variables would rewrite anything, and the substitution.

Where the source updates something in place, the model has a class or a method with loops, proved against functions on
values; the properties are then lemmas about those functions. Collaborators that the model cannot see are parameters:
the leaf transformation, a token's resolution, the loop body, converters and hooks, and whether a project switch succeeds.

Where the code does less than its documentation says, the model follows the code and the lemma says exactly when it does
what is promised:

- The comment at `scripts/changelog.py:395-396` takes the Unreleased definition to stand below the heading. Nothing checks
  that: `ChangelogExtract.RolledAbove` shows what is lost when it stands above.
- The parser and printer of entries are inverse up to the stable sort, but an entry file that ends in a line of blanks, or
  a document that starts with two byte order marks, is not a fixpoint of folding (`ChangelogFoldTwice.FoldTwiceIff`).
- "More than one connection" is reached after all for a parameter that takes control in and puts data out
  (`ConnectionTable.MixedParameterFails`, with `MixedParameterExample`).
- A value with a cycle is walked to the end, but back references keep the old leaves (`Substitution.SubstitutedIff`,
  `VariableResolution.ResolveValue`).
- The last values of a loop run in order are found only when no pass failed before the last one that succeeded, and they
  come from the last pass, failed or not (`LoopRuns.LastValuesIff`, with `LastValuesLost` and `LastValuesOfAFailure`).
- A list's limit counts the values hooks store only when a later row is set (`ListRows.ReplacedFitsIff`, with
  `ReplacedTooLong`).
- A value in which nothing is rewritten is resolved to itself only if each of its texts comes back as the very same string
  (`VariableResolution.ResolveValue`).
- A failed project switch is to leave the previous project, but the current one is set before the awaits, so a switch that
  is broken off leaves a project that is not the recorded one (`ProjectAdoption.FreeLockMeansRecordedIff`, with
  `BrokenOffGoesAstray`).

## Model

| member | source | states |
|---|---|---|
| `SchedulingGraph.DirectedGraph.constructor` | src/griptape_nodes/common/directed_graph.py:11-13 | a new graph has no nodes and is well formed: its predecessor keys are its node set |
| `SchedulingGraph.DirectedGraph.AddNode` | src/griptape_nodes/common/directed_graph.py:19-23 | adds the node with no predecessors unless it has an entry; predecessor keys stay equal to the node set |
| `SchedulingGraph.DirectedGraph.AddEdge` | src/griptape_nodes/common/directed_graph.py:25-29 | adds both ends and exactly one edge |
| `SchedulingGraph.DirectedGraph.InDegree` | src/griptape_nodes/common/directed_graph.py:35-40 | the number of edges into the node, or nothing for an unknown one |
| `SchedulingGraph.DirectedGraph.OutDegree` | src/griptape_nodes/common/directed_graph.py:42-51 | the counting loop gives the number of edges out of the node, or nothing for an unknown one |
| `SchedulingGraph.DirectedGraph.RemoveNode` | src/griptape_nodes/common/directed_graph.py:57-70 | removes the node and exactly the edges that touch it |
| `SchedulingGraph.DegreesBalance` | src/griptape_nodes/common/directed_graph.py:35-51 | summed over all nodes, in-degrees and out-degrees are equal |
| `SchedulingGraph.RunsRespectEdges` | src/griptape_nodes/common/directed_graph.py:35-70 | whoever repeatedly removes a node of in-degree zero removes what a node waits for before the node |
| `SchedulingGraph.CompletesIffAcyclic` | src/griptape_nodes/common/directed_graph.py:35-70 | some such run empties the graph if and only if it has no cycle |
| `SchedulingGraph.AcyclicNeverStuck` | src/griptape_nodes/common/directed_graph.py:35-70 | without cycles no run is ever stuck before the graph is empty |
| `SchedulingGraph.CycleNeverRuns` | src/griptape_nodes/common/directed_graph.py:35-70 | a node on a cycle is in no run |
| `SchedulingGraph.CompleteRun` | src/griptape_nodes/common/directed_graph.py:35-70 | a graph without cycles has a run that removes every node |
| `Packaging.RedirectPackagedEdgesAndRemove` | src/griptape_nodes/common/node_executor.py:4194-4212 | whatever order the packaged nodes are visited in, the network ends as the closed form says: packaged nodes gone, each outside consumer of one waiting for the stand-in instead, all else as it was |
| `Packaging.RedirectSuccessors` | src/griptape_nodes/common/node_executor.py:4208-4211 | the inner loop adds exactly the edges from the stand-in to the outside successors |
| `Packaging.RedirectedIsUnique` | src/griptape_nodes/common/node_executor.py:4205-4212 | the closed form determines the graph, so the order of removal does not matter |
| `Packaging.RedirectedEdges` | src/griptape_nodes/common/node_executor.py:4205-4212 | the edges of the rewritten graph are the old ones outside the package and one from the stand-in to each consumer; its nodes likewise |
| `Packaging.NoNewSelfLoop` | src/griptape_nodes/common/node_executor.py:4201-4210 | the stand-in's own predecessors are the old ones without the package, so no self-loop is made |
| `Packaging.StandInRunsFirst` | src/griptape_nodes/common/node_executor.py:4194-4212 | in every run over the rewritten graph the stand-in comes before any outside consumer of a packaged node |
| `Packaging.PlainRemovalFrees` | src/griptape_nodes/common/node_executor.py:4194-4202 | dropping a packaged node without redirecting would let its consumer run at once |
| `Packaging.AcyclicIff` | src/griptape_nodes/common/node_executor.py:4194-4212 | rewriting a graph without cycles leaves none if and only if no consumer reaches the stand-in outside the package |
| `Packaging.RewrittenCompletesIff` | src/griptape_nodes/common/node_executor.py:4194-4212 | the rewritten schedule can run to the end under exactly that condition |
| `ConnectionTable.AddKeepsWellFormed` | src/griptape_nodes/exe_types/connections.py:53-75 | an accepted connection keeps indexes and table in agreement and the cardinality rules |
| `ConnectionTable.RemoveKeepsWellFormed` | src/griptape_nodes/exe_types/connections.py:264-283 | so does a removal, which leaves no empty list or map behind |
| `ConnectionTable.RemovedIs` | src/griptape_nodes/exe_types/connections.py:217-283 | a removal takes the connection out of the store and its two lists, and leaves the others in order |
| `ConnectionTable.AddedIs` | src/griptape_nodes/exe_types/connections.py:37-77 | an accepted connection is stored and listed last under its own ends; a refused one changes nothing |
| `ConnectionTable.RemoveUndoesAdd` | src/griptape_nodes/exe_types/connections.py:37-77 | adding a connection and removing it restores the exact table |
| `ConnectionTable.EveryRunKeeps` | src/griptape_nodes/exe_types/connections.py:37-283 | both hold after any run of additions and removals |
| `ConnectionTable.EmptyIsWellFormed` | src/griptape_nodes/exe_types/connections.py:32-35 | and of a new store |
| `ConnectionTable.FoundExactlyOnce` | src/griptape_nodes/exe_types/connections.py:64-74 | a stored connection is listed once in each index, under its own ends and nowhere else |
| `ConnectionTable.RefusedIff` | src/griptape_nodes/exe_types/connections.py:53-62 | what is refused and why, said of the connections there are: the modes, a second connection from a control output, a second into a data input |
| `ConnectionTable.OneKindOfEdge` | src/griptape_nodes/exe_types/connections.py:328-334 | every stored connection is a control edge or a data edge, by its source parameter |
| `ConnectionTable.FollowedDownstreamIff` | src/griptape_nodes/exe_types/connections.py:165-204 | downstream, where a control output goes by default, one arrives at (n, q) if and only if the first listed connection leads there and may be followed |
| `ConnectionTable.FollowedUpstreamIff` | src/griptape_nodes/exe_types/connections.py:165-204 | upstream, where other parameters go by default, at what the first listed connection comes from, unless there are several into a parameter that puts out data |
| `ConnectionTable.FollowedNowhereIff` | src/griptape_nodes/exe_types/connections.py:179-205 | nowhere if and only if nothing is listed, or the first is internal and those are not followed; otherwise at a node of the workflow and its own parameter |
| `ConnectionTable.TooManyIff` | src/griptape_nodes/exe_types/connections.py:151-205 | following a parameter fails with "more than one" exactly when it is asked upstream, puts out data, takes control in, and several connections enter it |
| `ConnectionTable.NeverTooMany` | src/griptape_nodes/exe_types/connections.py:185-194 | so it never does for a parameter whose two sides agree on carrying control |
| `ConnectionTable.MixedParameterFails` | src/griptape_nodes/exe_types/connections.py:95-102 | a second connection into such a parameter is accepted, and then following it upstream fails |
| `ConnectionTable.MixedParameterExample` | src/griptape_nodes/exe_types/connections.py:37-77 | such a table is reached: two accepted connections from two nodes into one mixed parameter |
| `Connections.Connections.constructor` | src/griptape_nodes/exe_types/connections.py:32-35 | a new store is the empty, well-formed table |
| `Connections.Connections.AddConnection` | src/griptape_nodes/exe_types/connections.py:37-77 | refuses for the source's reasons, in its order, and otherwise adds to all three maps |
| `Connections.Connections.RemoveById` | src/griptape_nodes/exe_types/connections.py:217-238 | removes from all three maps, or changes nothing for an unknown connection |
| `Connections.Connections.FindConnection` | src/griptape_nodes/exe_types/connections.py:207-215 | finds a connection between the named ends if and only if there is one, and of several the first listed |
| `Connections.Connections.RemoveConnection` | src/griptape_nodes/exe_types/connections.py:240-262 | removes the first listed connection between the named ends, or changes nothing when there is none |
| `Connections.Connections.DataTargets` | src/griptape_nodes/exe_types/connections.py:328-334 | a node's data connections lead to exactly its successors along data edges |
| `Connections.Connections.CollectDownstreamDataNodes` | src/griptape_nodes/exe_types/connections.py:311-338 | marks exactly what is reached without passing visited names, and returns the far ends of exactly the edges crossed |
| `Connections.Connections.UnresolveFutureNodes` | src/griptape_nodes/exe_types/connections.py:340-377 | walks the same way and makes exactly the RESOLVED nodes at the far ends UNRESOLVED, changing no other state |
| `Connections.Connections.SearchForward` | src/griptape_nodes/exe_types/connections.py:453-493 | the recursive search with its shared visited names: a hit is reachable, and a miss leaves only searched names behind |
| `Connections.Connections.IsNodeInForwardControlPath` | src/griptape_nodes/exe_types/connections.py:453-493 | true if and only if the target is reached in one or more control edges, despite the shared set and the early exit |
| `Connections.Connections.CollectFromRoots` | src/griptape_nodes/exe_types/connections.py:314-316 | over any list of roots sharing one visited set, the union is exactly what is downstream of some root, a root on a cycle included |
| `Connections.StaledIs` | src/griptape_nodes/exe_types/connections.py:356-377 | of the nodes across the edges exactly the RESOLVED ones become UNRESOLVED |
| `Connections.WalkedStaysClosed` | src/griptape_nodes/exe_types/connections.py:340-377 | from a visited set closed under data edges a walk adds exactly what the root reaches and leaves the set closed |
| `Connections.NextRoot` | src/griptape_nodes/exe_types/connections.py:311-338 | one more root adds exactly its own downstream nodes to what several roots sharing a set have collected |
| `StaleMarking.StepShows` | src/griptape_nodes/exe_types/connections.py:340-377 | a started node is marked and resolving, a finished one RESOLVED and unmarked; a start changes other states only from RESOLVED to UNRESOLVED, downstream |
| `StaleMarking.StartKeepsSound` | src/griptape_nodes/machines/parallel_resolution.py:830-842 | starting a node keeps the shared set closed and without RESOLVED nodes, and puts the node in it |
| `StaleMarking.FinishKeepsSoundIff` | src/griptape_nodes/machines/parallel_resolution.py:215-225 | finishing a node keeps it so if and only if nothing directly upstream of it is still marked |
| `StaleMarking.NothingDownstreamResolved` | src/griptape_nodes/exe_types/connections.py:340-377 | in any interleaving of starts, finishes and other changes in which nodes finish in data order, nothing downstream of a marked node is RESOLVED |
| `StaleMarking.StartedMarksDownstream` | src/griptape_nodes/exe_types/connections.py:347-354 | so after every start nothing downstream of the started node is RESOLVED |
| `StaleMarking.IncrementalEqualsFresh` | src/griptape_nodes/exe_types/connections.py:347-354 | the walk with the shared set leaves every node in the state a walk with a fresh set would have left it in |
| `StaleMarking.ExecutedMarksDownstream` | src/griptape_nodes/exe_types/connections.py:340-377 | for nodes executed in data order and marking afterwards, with a set nothing is taken out of, nothing downstream of the executed node is RESOLVED |
| `RequestTracking.NextKeeps` | src/griptape_nodes/api_client/request_client.py:364-483 | every step keeps: a waiting future belongs to a pending entry, a settled one never changes, memory is bounded and without repeats |
| `RequestTracking.EveryRunKeeps` | src/griptape_nodes/api_client/request_client.py:364-574 | so does every interleaving of tracking, discarding, failing by tag, replies and waiters that cancel without the lock |
| `RequestTracking.EveryRunFromTheStart` | src/griptape_nodes/api_client/request_client.py:364-574 | from the empty start, every run ends in a state with those invariants; and while no id is tracked twice, no state on the way has an id both pending and remembered |
| `RequestTracking.DisjointThroughoutIff` | src/griptape_nodes/api_client/request_client.py:407-437 | a run keeps remembered and pending ids apart in every state if and only if it never tracks an id that is then remembered |
| `RequestTracking.OldestAreForgotten` | src/griptape_nodes/api_client/request_client.py:401-405 | abandoning requests keeps exactly the newest 1000 ids, oldest first out |
| `RequestTracking.FailingRaisesAtAwaiters` | src/griptape_nodes/api_client/request_client.py:364-382 | failing a tag rejects with the error exactly the waiting futures of pending requests with the tag; other futures and requests are as they were |
| `RequestTracking.DiscardCancels` | src/griptape_nodes/api_client/request_client.py:384-405 | discarding cancels the waiting future, removes the entry and remembers the id as the newest; an unknown id changes nothing |
| `RequestTracking.ReplySettles` | src/griptape_nodes/api_client/request_client.py:551-574 | a reply settles with the message, or a failure that is to be raised with its details, its exception or "Unknown error" |
| `RequestTracking.TrackedAsAsked` | src/griptape_nodes/api_client/request_client.py:407-437 | a tracked request waits; it fails with its own tag only, and gets a failure as message or error as it asked |
| `RequestTracking.WaiterGivesUp` | src/griptape_nodes/api_client/request_client.py:440-451 | a waiter that gives up cancels its own waiting future and nothing else |
| `RequestTracking.ClaimedIff` | src/griptape_nodes/api_client/request_client.py:525-574 | a message is claimed exactly when it changes something |
| `RequestTracking.FailingForgetsOldest` | src/griptape_nodes/api_client/request_client.py:364-382 | failing by tag too |
| `RequestTracking.DisjointIff` | src/griptape_nodes/api_client/request_client.py:407-437 | remembered and pending ids stay apart in a step if and only if it does not track a remembered id again |
| `RequestTracking.LateReplyClaimedOnce` | src/griptape_nodes/api_client/request_client.py:546-550 | while remembered and pending ids are apart, a late reply to a remembered id is claimed once, settles nothing, and is not claimed again |
| `RequestTracking.UnclaimedChangesNothing` | src/griptape_nodes/api_client/request_client.py:551-574 | a message that is not claimed changes nothing |
| `RequestTracking.RetrackedReplyIsLost` | src/griptape_nodes/api_client/request_client.py:546-550 | the reply to an id that is tracked again while remembered is dropped and its future left waiting |
| `RequestTracking.FirstReplyDecides` | src/griptape_nodes/api_client/request_client.py:551-574 | for an entry no other step touches, the first reply settles it and later ones change nothing |
| `RequestTracking.BatchOrderIndependent` | src/griptape_nodes/api_client/request_client.py:295-333 | two runs of any steps with the same first reply for each id settle a batch's futures alike |
| `RequestTracking.RepliesInAnyOrder` | src/griptape_nodes/api_client/request_client.py:525-574 | replies delivered in any order, among other messages, settle each future of a batch with the outcome of its own reply |
| `RequestTracking.BatchInAnyOrder` | src/griptape_nodes/api_client/request_client.py:267-271 | when every request is answered, and none failed or failures are returned, the batch comes to the outcomes in submission order, in whatever order the replies arrive |
| `RequestTracking.FailureIsRaised` | src/griptape_nodes/api_client/request_client.py:272-276 | otherwise it raises the error of a request that failed, in whatever order they arrive |
| `RequestTracking.TimesOutIff` | src/griptape_nodes/api_client/request_client.py:295-333 | without a failure to raise, it times out exactly when some request got no recognised reply |
| `RequestTracking.AnyFailureCanBeRaised` | src/griptape_nodes/api_client/request_client.py:267-276 | which one depends on the order: for every failed request some order of arrival makes the batch raise its error |
| `RequestClient.Future.Settle` | src/griptape_nodes/api_client/request_client.py:440-451 | only the first outcome takes effect |
| `RequestClient.RequestClient.RememberAbandoned` | src/griptape_nodes/api_client/request_client.py:401-405 | remembers an id and forgets the oldest beyond the limit |
| `RequestClient.RequestClient.TrackRequest` | src/griptape_nodes/api_client/request_client.py:407-437 | refuses an id that is pending and otherwise adds an entry with a new waiting future |
| `RequestClient.RequestClient.Pop` | src/griptape_nodes/api_client/request_client.py:453-483 | takes an entry out and settles its future, touching no other future |
| `RequestClient.RequestClient.DiscardRequest` | src/griptape_nodes/api_client/request_client.py:384-399 | cancels and remembers a pending request; an unknown one changes nothing |
| `RequestClient.RequestClient.FailRequestsByTag` | src/griptape_nodes/api_client/request_client.py:364-382 | fails exactly the requests with the tag, in tracking order |
| `RequestClient.RequestClient.TryMatch` | src/griptape_nodes/api_client/request_client.py:525-574 | claims a message exactly when the step system does, with the same effect |
| `RequestClient.RequestClient.TrackBatch` | src/griptape_nodes/api_client/request_client.py:295-311 | every id of a batch is pending with its own future, in submission order |
| `RequestClient.RequestClient.RequestBatch` | src/griptape_nodes/api_client/request_client.py:250-333 | tracks, receives, gathers and discards: the result is what the batch comes to for the messages that arrive, and none of its requests stays pending |
| `ValueGraph.IsPlainData` | src/griptape_nodes/exe_types/local_objects.py:457-483 | true if and only if everything reached is a scalar, a reference envelope, or a list, tuple or dictionary with allowed keys, and no container reached lies on a cycle |
| `ValueGraph.PlainIff` | src/griptape_nodes/exe_types/local_objects.py:462-483 | the same, spelled out over the leaves and containers inside the value |
| `ValueGraph.PlainDataWalk.Check` | src/griptape_nodes/exe_types/local_objects.py:462-483 | the recursive walk keeps every finished memo entry right although containers still open are seeded false and the loop stops at the first false |
| `ValueGraph.CollectLeaves` | src/griptape_nodes/exe_types/local_objects.py:486-506 | exactly the kept leaves inside the value, however it shares parts or reaches itself |
| `ValueGraph.LeafWalk.Collect` | src/griptape_nodes/exe_types/local_objects.py:493-506 | after each call everything inside a seen container is seen and its kept leaves are found |
| `Substitution.SubstituteLeaves` | src/griptape_nodes/exe_types/local_objects.py:509-519 | old containers untouched; the result unfolds to the value with every leaf replaced if and only if no container on a cycle has a changed leaf inside it; the same container comes back if and only if no leaf reached changes; if no set holds a cycle with a changed leaf, it refuses exactly when a set would change |
| `Substitution.SubstituteWalk.Substitute` | src/griptape_nodes/exe_types/local_objects.py:522-553 | the recursive walk keeps every finished memo entry: itself if no child changed, otherwise a new container of its kind; when it hands the value back, no container entered for it has a leaf that changes; it refuses when a set would change |
| `Substitution.SubstitutedIff` | src/griptape_nodes/exe_types/local_objects.py:522-553 | the if-and-only-if, for any way the walk can finish |
| `Substitution.SameValueIff` | src/griptape_nodes/exe_types/local_objects.py:529-553 | the same container comes back if and only if no leaf inside it changes |
| `Substitution.StableFits` | src/griptape_nodes/exe_types/local_objects.py:522-553 | for a container inside which no cycle has a changed leaf: one image, shared wherever it was shared, whose children are the images of its children |
| `Substitution.DoneMeansNoSetChanged` | src/griptape_nodes/exe_types/local_objects.py:540-549 | if no cycle inside a set has a changed leaf, as none can whose members are hashed, the walk finishes only if no set has a changed leaf inside it |
| `Substitution.UnstableIsNotSubstituted` | src/griptape_nodes/exe_types/local_objects.py:522-553 | round a cycle with a changed leaf the result leads to the old leaf |
| `ChangelogText.DocumentShape` | scripts/changelog.py:106-109 | lines read from any file hold no newline or carriage return, and the last is not empty unless it is the only one |
| `ChangelogText.ReadBack` | scripts/changelog.py:106-109 | writing clean lines and reading them back loses only trailing empty lines, unless the first line starts with a byte order mark |
| `ChangelogText.EndingsDoNotMatter` | scripts/changelog.py:106-109 | a file is read as its lines whichever way each ends, with or without a byte order mark; only empty lines at the end are lost |
| `ChangelogText.JoinSplit` | scripts/changelog.py:107 | joining the lines of a text gives the text |
| `ChangelogSections.MarkFenced` | scripts/changelog.py:717-736 | a line is marked if and only if a block is open before it or it opens one |
| `ChangelogSections.FencedSuffix` | scripts/changelog.py:717-736 | lines after a stretch that leaves no block open are fenced as they would be alone |
| `ChangelogSections.Find` | scripts/changelog.py:111-118 | the first unfenced match in the range, or -1 |
| `ChangelogSections.FindSectionEnd` | scripts/changelog.py:120-128 | the first unfenced section heading or link definition below, or the end |
| `ChangelogSections.GroupEntries` | scripts/changelog.py:648-679 | the loop groups exactly as reading the section's lines on their own does |
| `ChangelogSections.FormatEntries` | scripts/changelog.py:695-706 | the printed lines: known types in order, breaking entries first |
| `ChangelogPatterns.NumberDecimal` | scripts/changelog.py:739-740 | the number read from the decimal digits of n is n |
| `ChangelogPatterns.LeadingZeros` | scripts/changelog.py:739-740 | leading zeros do not matter |
| `ChangelogPatterns.NewerIff` | scripts/changelog.py:241-251 | the key of a.b.c is (a, b, c), and versions compare by the first number that differs |
| `ChangelogPatterns.VersionIs` | scripts/changelog.py:55 | three numbers with dots between them are a version, with those numbers as key |
| `ChangelogPatterns.VersionHeadingIff` | scripts/changelog.py:57 | a version heading is the version in brackets, then perhaps a date, then perhaps the withdrawn mark |
| `ChangelogPatterns.LinkIff` | scripts/changelog.py:58 | a link definition is a label in brackets without a closing one, a colon and a space, and a URL without white space |
| `ChangelogPatterns.UnreleasedDefinitionIff` | scripts/changelog.py:52 | the Unreleased definition is its ten letters in brackets, in any case, a colon and a space |
| `ChangelogPatterns.CompareIff` | scripts/changelog.py:65 | the URL is split into base and tag at the last place it can be, and not at all if there is none |
| `ChangelogPatterns.DelimiterIff` | scripts/changelog.py:64 | a fence is three or more backticks or tildes in a row after white space |
| `ChangelogPatterns.BlockIs` | scripts/changelog.py:717-736 | a fence outside code opens a block that lasts to the first line with as many of its marks, or to the end |
| `ChangelogPatterns.OutsideIs` | scripts/changelog.py:725-731 | outside code a line that is no fence is not fenced |
| `ChangelogPatterns.EntryIff` | scripts/changelog.py:59 | an entry line is a bullet of either kind and a space, after white space only |
| `ChangelogPatterns.CommentIff` | scripts/changelog.py:63 | a comment line is one comment with white space around it |
| `ChangelogPatterns.TypeNameIff` | scripts/changelog.py:187 | a change type is what its heading names, without the white space around it |
| `ChangelogEntries.ReadBackSorted` | scripts/changelog.py:648-706 | grouping the printed lines gives back the entries, each type's sorted |
| `ChangelogEntries.BreakingFirstIsStable` | scripts/changelog.py:703 | the sort is a permutation that keeps the order inside the breaking and the other entries |
| `ChangelogEntries.UnclosedSwallows` | scripts/changelog.py:657-676 | an entry that leaves a block open swallows the structure after it, so balance is needed |
| `ChangelogFold.EntryBodyProblems` | scripts/changelog.py:625-645 | exactly the problem of each line that has one, by line; none if and only if the text is one bullet with text, and later lines are blank or indented, no second bullet and no heading |
| `ChangelogFold.GroupShaped` | scripts/changelog.py:648-692 | every entry read is balanced, starts in column one, holds no structure outside blocks, and trails no blank line |
| `ChangelogFold.WithFragmentsListed` | scripts/changelog.py:332-333 | each type holds the section's entries, then the files' in order |
| `ChangelogFold.Fold` | scripts/changelog.py:311-336 | the method computes the fold, errors included |
| `ChangelogFoldTwice.FoldKeepsEntries` | scripts/changelog.py:311-336 | for files that close the blocks they open and a section that does, the folded section holds exactly the section's entries and the files' without trailing blank lines, as a multiset for each type and in order inside each class |
| `ChangelogFoldTwice.FollowedIsClosed` | scripts/changelog.py:120-128 | a section that another section or a link follows leaves no block open |
| `ChangelogFoldTwice.FoldTwiceIff` | scripts/changelog.py:311-336 | for files that close the blocks they open and a section that does, folding again with no files changes nothing if and only if no file ended in a blank line and the first line does not start with a second byte order mark |
| `ChangelogRelease.Roll` | scripts/changelog.py:345-408 | the method computes the roll, with each error in the source's order |
| `ChangelogRelease.NewHeadingReads` | scripts/changelog.py:406 | the heading written is read as a dated heading of the version |
| `ChangelogRelease.NewUnreleasedReads` | scripts/changelog.py:397-400 | the Unreleased line written is a link definition exactly when the base has no white space, and compares with HEAD |
| `ChangelogExtract.RolledBelow` | scripts/changelog.py:394-408 | with the definition below the heading every other folded line survives, in order |
| `ChangelogExtract.RolledAbove` | scripts/changelog.py:394-408 | with it above, the line before the heading is lost and the heading stands twice |
| `ChangelogExtract.SwallowedOpening` | scripts/changelog.py:394-408 | with the definition above and a code block that ends right before the heading, both headings are swallowed: whatever then counts as a heading stood below |
| `ChangelogExtract.ExtractInvertsRoll` | scripts/changelog.py:339-421 | extracting the released version gives what rendering showed if and only if the definition is not inside the section, when it stands below the heading; when above, the released section is empty, or is not found unless a heading of the version stood below |
| `ChangelogExtract.FoldedStart` | scripts/changelog.py:373-376 | what the roll reads back agrees with the source up to the heading |
| `ChangelogExtract.RolledReadsBack` | scripts/changelog.py:408 | reading the rolled text back loses nothing |
| `ChangelogExtract.RenderPrints` | scripts/changelog.py:339-342 | rendering prints the folded lines between the first Unreleased heading and the next heading or link, from the first to the last that is not empty |
| `ChangelogExtract.ExtractPrints` | scripts/changelog.py:410-421 | extracting prints those of the first section of the version, and fails exactly when there is none |
| `ChangelogExtract.StrippedIs` | scripts/changelog.py:709-714 | the text is the lines from the first to the last that is not empty, each with its newline |
| `ChangelogParts.EntriesAre` | scripts/changelog.py:648-692 | a section is read exactly when each line belongs to something, and as the entries that stand under each heading, in order, with all their lines |
| `ChangelogParts.FormatLays` | scripts/changelog.py:695-706 | each type with entries stands under a heading between blank lines, its entries breaking first, and the types in their fixed order |
| `ChangelogParts.FormatExample` | scripts/changelog.py:695-706 | two types, one with a breaking entry, laid out |
| `ChangelogParts.FoldIff` | scripts/changelog.py:311-336 | when a fold fails and why, and otherwise that only the section's lines change, to its entries and the files', laid out |
| `ChangelogParts.ProblemKinds` | scripts/changelog.py:625-645 | which problem a line of an entry file has |
| `ChangelogParts.RollIff` | scripts/changelog.py:345-386 | which error a roll fails with, in order, said of the lines of the document and of the folded one; otherwise it is done |
| `ChangelogParts.OpenedSectionIsEmpty` | scripts/changelog.py:650-655 | a roll leaves a section that reads as empty, its comment being the one line that belongs to no entry and may stay |
| `ChangelogParts.LinksMoveOn` | scripts/changelog.py:388-400 | the new Unreleased link compares the version's tag with HEAD, as the next roll reads it; the version's link is the old one with its tag for HEAD |
| `ChangelogCheck.Check` | scripts/changelog.py:262-264 | the problems of a document, in order |
| `ChangelogCheck.Checker.Run` | scripts/changelog.py:153-174 | title, preamble, the walk over unfenced lines, versions, and the Unreleased link |
| `ChangelogWellFormed.FinishedQuiet` | scripts/changelog.py:165-174 | what it takes for a walk to end without problems |
| `ChangelogWellFormed.TwoWalks` | scripts/changelog.py:345-408 | the check finds in the rolled lines what it finds in the folded ones, and the new version before the others |
| `ChangelogWellFormed.SeenListed` | scripts/changelog.py:176-221 | the walk lists the first version heading first and has exactly the labels of the link definitions |
| `ChangelogWellFormed.TwiceIsReported` | scripts/changelog.py:203-207 | a second Unreleased heading is always reported |
| `ChangelogWellFormed.ReleaseStaysWellFormedIff` | scripts/changelog.py:345-408 | with the definition below the heading: if the folded document is well formed, the rolled one is if and only if the version is newer than the first listed, and the definition is a link definition or the version had a link. With it above: never, unless a code block ends right before the heading and code below holds a second such heading |
| `ChangelogRules.MentionsIff` | scripts/changelog.py:161 | a text mentions a word exactly when it is something, the word and something |
| `ChangelogRules.PreambleIs` | scripts/changelog.py:158-162 | the specification is looked for above the first section heading outside code, or everywhere |
| `ChangelogRules.CheckIff` | scripts/changelog.py:153-251 | the check reports nothing if and only if the lines are well formed, said of the lines alone: title, sections, versions, change types, entries and links |
| `ChangelogRules.ProblemsAre` | scripts/changelog.py:153-251 | the check reports a problem of each kind at a line, and once, if and only if the document has it there, said of the lines alone |
| `ChangelogRules.NewestFirstIff` | scripts/changelog.py:241-251 | each version older than the one listed above it exactly when of any two listed the upper is the newer |
| `ProjectAdoption.EveryRunKeeps` | src/griptape_nodes/app/worker_routing.py:665-716 | however adoptions interleave at their awaits: mutual exclusion, sound records, and a recorded generation that never decreases |
| `ProjectAdoption.FreeLockMeansRecordedIff` | src/griptape_nodes/app/worker_routing.py:688-715 | whenever the lock is free the current project is the one of the recorded generation, unless the last switch to set the project did not complete; and in that case it is not, when each request asks for another project |
| `ProjectAdoption.BrokenOffGoesAstray` | src/griptape_nodes/retained_mode/managers/project_manager.py:3404 | the project is set before the awaits, so a switch broken off at one leaves it without a record |
| `ProjectAdoption.NewestWinsIff` | src/griptape_nodes/app/worker_routing.py:235-239 | once all have ended, the worker is on the newest request's project, with its generation recorded, if and only if a request with that generation succeeded |
| `ProjectAdoption.SettledMeansSucceeded` | src/griptape_nodes/app/worker_routing.py:615-618 | the worker is settled only after an adoption or a stale skip |
| `ProjectAdoption.EndsForAReason` | src/griptape_nodes/app/worker_routing.py:684-716 | an adoption succeeds only if its project was found and the switch succeeded, and ends as unknown, failed or raised only for that reason |
| `ProjectAdoption.NewerIsAdopted` | src/griptape_nodes/app/worker_routing.py:684-716 | a newer request whose project is found and whose switch succeeds is adopted and recorded |
| `ProjectAdoption.Worker.EnterLock` | src/griptape_nodes/app/worker_routing.py:688-699 | the staleness check happens under the lock |
| `ProjectAdoption.Worker.AfterLoading` | src/griptape_nodes/app/worker_routing.py:700-706 | an unknown project ends the adoption and frees the lock |
| `ProjectAdoption.Worker.AfterSwitching` | src/griptape_nodes/app/worker_routing.py:708-716 | a failed switch records nothing, whatever project it leaves; a successful one records its generation before the lock is freed |
| `LoopRuns.Flow.SetAll` | src/griptape_nodes/common/node_executor.py:1532-1548 | setting the parameters leaves every other value on the start node as it was |
| `LoopRuns.RunInOrder` | src/griptape_nodes/common/node_executor.py:1522-1644 | one reused flow: the results, successes, failures, skips and break of the loop in order |
| `LoopRuns.ListInOrder` | src/griptape_nodes/common/node_executor.py:1749-1777 | the results list in iteration order, or the error for failures without a break |
| `LoopRuns.SortedAt` | src/griptape_nodes/common/node_executor.py:1773-1777 | the results are listed in the order of their iterations, and nothing else |
| `LoopRuns.SkippedIs` | src/griptape_nodes/common/node_executor.py:1573-1600 | the count of skipped iterations is how many that were reached took that exit |
| `LoopRuns.StartValueIs` | src/griptape_nodes/common/node_executor.py:1532-1548 | a start parameter has the value the last iteration that set it gave it, or its own iteration's on a flow of its own |
| `LoopRuns.ListInParallel` | src/griptape_nodes/common/node_executor.py:3500-3683 | separate flows, run in any order, give one result: a list with a value or none for every iteration |
| `LoopRuns.SameStartsIff` | src/griptape_nodes/common/node_executor.py:1532-1548 | the reused flow starts every pass from the values a new flow would if and only if nothing an earlier pass set is left over |
| `LoopRuns.ListsAgreeIff` | src/griptape_nodes/common/node_executor.py:1773-1777 | from the same starts the two lists are equal if and only if no iteration is skipped or lacks a result, only the last breaks, and none fails unless the last breaks |
| `LoopRuns.LastValuesIff` | src/griptape_nodes/common/node_executor.py:1636-1644 | the loop leaves the values of the last successful pass if none failed; if one failed before the last success it leaves nothing, and otherwise the values of the last failure, so it is right only if those are the same |
| `LoopRuns.LastFound` | src/griptape_nodes/common/node_executor.py:3353-3365 | values are left exactly when a pass succeeded and none failed before the last that did, and they are those of the last pass that ran |
| `LoopRuns.LastValuesLost` | src/griptape_nodes/common/node_executor.py:1636-1644 | a loop whose last successful pass has values and that leaves none |
| `LoopRuns.LastValuesOfAFailure` | src/griptape_nodes/common/node_executor.py:1636-1644 | a loop that leaves the values of a pass that failed |
| `LoopRuns.OutcomesAgreeIff` | src/griptape_nodes/common/node_executor.py:1937-1944 | from the same starts results and last values agree if and only if all are collected and none fails, or the last breaks and either the successes come first or it puts nothing out |
| `LoopRuns.PlainLoopsAgree` | src/griptape_nodes/common/node_executor.py:1937-1944 | for a body that never fails, skips, breaks or lacks a result, and nothing left over, results and last values agree |
| `LoopRuns.LeftoverShows` | src/griptape_nodes/common/node_executor.py:2966-2977 | with something left over, some such body tells the two apart |
| `LoopRuns.ParametersPerIteration` | src/griptape_nodes/common/node_executor.py:2950-2977 | what each iteration sets: offers that are None set nothing, outside values fill in the rest |
| `LoopRuns.ParamIs` | src/griptape_nodes/common/node_executor.py:2950-2977 | a parameter gets what the last feed for it that gives anything gives: the loop's value, or the iteration's own item |
| `LoopRuns.ParamElse` | src/griptape_nodes/common/node_executor.py:2950-2977 | and without one what comes from outside the loop |
| `LoopRuns.ItemsLeaveNothing` | src/griptape_nodes/common/node_executor.py:2966-2977 | when every iteration has an item that is not None, nothing is left over |
| `ListRows.ListNode.Replace` | src/griptape_nodes/exe_types/list_rows.py:200-244 | succeeds exactly when no entry and not the whole list is refused; otherwise rows and values end as they began |
| `ListRows.ListNode.Restore` | src/griptape_nodes/exe_types/list_rows.py:251-260 | the old rows and values, in place of the new ones |
| `ListRows.ListNode.ReadList` | src/griptape_nodes/exe_types/list_rows.py:312-322 | the concatenation of the rows' items |
| `ListRows.ListNode.WithinMaxItems` | src/griptape_nodes/exe_types/list_rows.py:153-168 | counts the items of the rows with the candidate in place of the row's value, whichever row it is |
| `ListRows.ListNode.SetRow` | src/griptape_nodes/exe_types/node_types.py:1224-1249 | a row stores what its hook makes of the candidate, or is refused |
| `ListRows.ListNode.AddRow` | src/griptape_nodes/exe_types/elements/containers.py:493-513 | a full list takes no further row, so a list never has more than its limit |
| `ListRows.StoredAt` | src/griptape_nodes/exe_types/list_rows.py:234-236 | row by row, what is stored is what was made of that row's entry |
| `ListRows.ReplacementIff` | src/griptape_nodes/exe_types/list_rows.py:200-244 | the list is replaced by these rows exactly when its entries fit, no row is connected, each new row is accepted in turn and stores this, and their items pass |
| `ListRows.ItemsConcat` | src/griptape_nodes/exe_types/list_rows.py:312-331 | the items are the rows' items, row after row |
| `ListRows.UnchangedEntriesReadBack` | src/griptape_nodes/exe_types/list_rows.py:234-237 | entries stored as they came read back as the entries |
| `ListRows.ReplacedFitsIff` | src/griptape_nodes/exe_types/list_rows.py:153-168 | a replaced list exceeds its limit if and only if what its last row stored does not fit beside the rows before it; and then its hook stored more items than its converters gave |
| `ListRows.ReplacedTooLong` | src/griptape_nodes/exe_types/list_rows.py:153-168 | a list of at most one item that ends up with two |
| `TraitStates.ChangedTraitStates` | src/griptape_nodes/exe_types/trait_state.py:62-85 | the loop with its shrinking list pairs the n-th entry of an identity with the n-th, and keeps what differs |
| `TraitStates.TakeCounterpart` | src/griptape_nodes/exe_types/trait_state.py:88-99 | takes the first candidate of the identity and no other |
| `TraitStates.OverlayRestoresIff` | src/griptape_nodes/exe_types/trait_state.py:62-85 | overlaying what was kept gives back the current states if and only if no paired state lost a key |
| `TraitStates.KeepsLeast` | src/griptape_nodes/exe_types/trait_state.py:77-81 | whatever overlays to the current states holds at least what is kept |
| `TraitStates.KeepsOnlyChanges` | src/griptape_nodes/exe_types/trait_state.py:77-81 | a key is kept if and only if its counterpart lacks it or has another value |
| `VariableTemplates.WouldSubstitute` | src/griptape_nodes/exe_types/variable_resolver.py:297-322 | true if and only if some text in the value, however deep and on whatever cycles, has a token that would be rewritten |
| `VariableTemplates.TextWalk.Contains` | src/griptape_nodes/exe_types/variable_resolver.py:44-67 | refusing only what it is inside of, the walk misses nothing |
| `VariableTemplates.UnrewrittenStays` | src/griptape_nodes/exe_types/variable_resolver.py:112-119 | text none of whose tokens is rewritten is left as it is |
| `VariableTemplates.SplitExists` | src/griptape_nodes/exe_types/variable_resolver.py:122-127 | every text is its tokens with token-free stretches between them |
| `VariableTemplates.ResolvedIs` | src/griptape_nodes/exe_types/variable_resolver.py:122-149 | text with a brace before a letter or underscore becomes its stretches with what each token resolves to between them; other text stays; it would be rewritten when some token resolves to another |
| `VariableResolution.ResolveValue` | src/griptape_nodes/exe_types/variable_resolver.py:121-174 | the value is resolved everywhere if and only if no container that reaches itself has an altered text inside it; the very same value comes back if and only if every text in it comes back as the very same string, and otherwise a new container |
| `VariableResolution.ResolveWalk.Resolve` | src/griptape_nodes/exe_types/variable_resolver.py:121-174 | what each call adds is copies, and the same value comes back if and only if every text reached without entering what the walk is inside of comes back as the same string |
| `VariableResolution.StableIsResolved` | src/griptape_nodes/exe_types/variable_resolver.py:121-174 | whatever way is followed, resolved text is found where text was |
| `VariableResolution.UnstableIsNotResolved` | src/griptape_nodes/exe_types/variable_resolver.py:149-150 | round a cycle often enough, the result leads to text left as it was |
| `VariableResolution.UnrewrittenIsSame` | src/griptape_nodes/exe_types/variable_resolver.py:297-322 | when substituting would rewrite nothing, the result is the value again, whatever its nesting and cycles |
| `VariableResolution.RewritingCanGiveBack` | src/griptape_nodes/exe_types/variable_resolver.py:297-311 | the converse fails: rewriting tokens can give back the same text |

## Left out

- Renaming nodes and changing a parameter's type after it was connected: names and types are fixed in the model.
- The special case for `BaseIterativeEndNode` in `get_connected_node`, and the listing helpers of the connection store.
- Removing a connection while a walk over the store is under way; the model's methods are not interleaved.
- Connections.Connections.UnresolveFutureNodes: events and messages that a state change sends out are not part of it.
- ConnectionTable.NeverTooMany: is about parameters with both sides alike; the remaining case is TooManyIff.
- StaleMarking.NothingDownstreamResolved: takes nodes to finish in data order, which is exactly what keeps the shared set sound (FinishKeepsSoundIff).
- RequestClient.RequestClient.RequestBatch: between its start and its end only messages reach the client, not other requests, and its caller is not cancelled; a timeout is that no further message arrives. RequestTracking.RepliesInAnyOrder and BatchOrderIndependent speak of a batch's futures, the latter with any other steps in between.
- Subscriptions, clocks, logging, worker topics and the transport of the request client; `_resolve_request` and `_reject_request`, which only take the lock around modelled sections.
- RequestTracking.DisjointIff: the client itself never tracks an id again; the model allows it and says what follows.
- Substitution.SubstituteLeaves: what garbage a refused walk has allocated is not stated.
- Python's identity of equal strings: resolving a value is told which texts come back as the very same string. For substituted leaves equal means the same object.
- Nodes' own hooks that change other lists, events and output recording while rows are replaced; a list's rows change only through the list.
- ListRows.ListNode.Replace: takes row names to be new, as the source draws them at random. That the list is within its limit before is no assumption about it: the limit is fixed, and every row comes in through AddRow.
- Setting a start parameter that the node refuses, which the loops only warn about; cancelling a loop; running it in a subprocess or through a publisher.
- LoopRuns.PlainLoopsAgree: assumes that a pass depends on the start node's values alone, so that node state outside them is no input to the body.
- ProjectAdoption.NewestWinsIff: assumes that nothing but adoptions switches the project. A switch that fails leaves the project it found or the one asked for.
- ProjectAdoption.Worker.AfterSwitching: the switch is one step; what other code sees of the project while it is under way is not modelled.
- Reading and writing files, arguments, messages, the entry files' names, and `check_unreleased_is_empty`.
- Digits and letters beyond ASCII in the changelog's patterns, except the long s, which the case-insensitive pattern also accepts.
- ChangelogExtract.ExtractInvertsRoll: with the definition above the heading and the end of a code block right before it, what is extracted is not said when a heading of that very version stood below, in code, say. Nor is a document with a second byte order mark covered, whose first line changes each time it is read back.
- ChangelogWellFormed.ReleaseStaysWellFormedIff: in that case says only what code below must hold for the result to be well formed; that folding a well-formed document gives a well-formed one is taken as given, as the command checks it.
- ChangelogFoldTwice.FoldTwiceIff: takes entry files to close the code blocks they open, and the section too when nothing follows it; UnclosedSwallows shows why.
- ChangelogSections.GroupEntries: entries are lists of lines, where the source joins them with newlines and splits them again.
- Saving trait values as data, matching saved traits to classes on loading, and renamed option keys.
- Macro parsing and format specifications: a token's resolution is a parameter.
