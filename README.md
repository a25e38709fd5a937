# Browser integration tester and MCP command parser: a verified model

This project models, in Dafny, the decision-making core of two plugins.

The **smart parallel executor** (`parallel_executor.py`) does four things:

- It finds dependencies between the interactive elements of a page with five pairwise rules: form, DOM, state, sequential and dangerous.
- It builds a dependency graph. Each node has outgoing and incoming edge lists, and the graph keeps a flat edge list.
- It orders the elements by Kahn's algorithm. The ready node of least incoming weight goes first, and when a cycle stops the pass it drops one edge and starts again.
- It cuts the order into execution groups and runs each group, counting which path every element took. A runtime conflict detector keeps a lock per selector.

The **element tester** (`run_test.py`, with the records of `models.py`) has these parts:

- the risk levels of elements and their bucketing;
- the network monitor, which turns captured requests into API calls and summarises them;
- the form filler's choice of value generator and of drop-down option;
- the success decision for a clicked link;
- the Markdown test report and its API-coverage section.

The **report validator** (`validate-report.js`) checks a finished report. It looks at the header order, the execution log, leftover placeholders, the evidence images and the explanation of every non-2xx call.

The **MCP command parser** (`call_mcp.py`) turns `alias command arguments` into a structured call.

Whatever the browser, the clock, the JSON decoder, the URL parser or a regular expression would answer comes into the model as a parameter, an oracle function or a recorded value:

- the page's DOM relation, closeness and shared container (`Rules.Page`);
- a test attempt (`Executor.Tester`);
- a parsed URL (`Network.UrlParts`);
- a report scan (`ReportValidator.Scanner`);
- `json.loads` (`McpCaller.JsonDecoder`).

State that the source updates in place is a Dafny `class` whose methods state the whole new state:

- `Graph.DependencyGraph`
- `Locks.LockTable`
- `Executor.SmartExecutor`
- `Network.NetworkMonitor`
- `Report.TestReport`
- `ReportValidator.Validation`

The loops of the source are `while`/`for` loops proved against specification functions, and the properties are lemmas about those functions.

Modules, by file:

| file | module | models |
|---|---|---|
| `wrappers.dfy` | `Wrappers` | `Option` and `Result` |
| `text.dfy` | `Text` | the string operations the source relies on: `lower`, `strip`, `split`, `in`, `indexOf` |
| `models.dfy` | `Models` | `models.py` |
| `dependency_rules.dfy` | `Rules` | the five rules and `_detect_dependencies` |
| `graph_model.dfy` | `GraphModel` | the node table, `add_node`/`add_edge` as values, ancestors, in-degrees, weights |
| `dependency_graph.dfy` | `Graph` | the `DependencyGraph` class |
| `topo_sort.dfy` | `TopoSort` | one Kahn pass and its properties |
| `cycle_break.dfy` | `CycleBreak` | `_break_cycles` |
| `grouping.dfy` | `Grouping` | `group_by_parallelization` |
| `analyzer.dfy` | `Analyzer` | `analyze_dependencies` |
| `conflict_detector.dfy` | `Locks` | `RuntimeConflictDetector` |
| `executor.dfy` | `Executor` | `SmartParallelExecutor` |
| `discovery.dfy` | `Discovery` | risk levels and categories |
| `network.dfy` | `Network` | `NetworkMonitor` |
| `form_filler.dfy` | `FormFiller` | `SmartFormFiller` |
| `link_check.dfy` | `LinkTest` | `test_link` |
| `report.dfy` | `Report` | `TestReport` / `EnhancedTestReport` |
| `report_validator.dfy` | `ReportValidator` | `validate-report.js` |
| `mcp_parser.dfy` | `McpCaller` | `call_mcp.py` |

## Model

| member | source | states |
|---|---|---|
| Models.SuccessResult | plugins/agent-browser-integration-testing/skills/agent-browser-integration-testing/scripts/models.py:90-93 | a successful result carries the output, no error and no timeout, and satisfies the success-iff-no-error invariant |
| Models.ErrorResult | plugins/agent-browser-integration-testing/skills/agent-browser-integration-testing/scripts/models.py:95-98 | a failed result has empty output and carries the given error; it is not a timeout |
| Models.TimeoutResult | plugins/agent-browser-integration-testing/skills/agent-browser-integration-testing/scripts/models.py:100-104 | a timed-out result has failed, has empty output and carries the error "Command timed out: " followed by the command |
| Models.FactoriesDistinguishable | plugins/agent-browser-integration-testing/skills/agent-browser-integration-testing/scripts/models.py:77-104 | the three factories never build the same result, so success and timeout are told apart by the flags alone |
| Models.GetWaitMs | plugins/agent-browser-integration-testing/skills/agent-browser-integration-testing/scripts/models.py:143-150 | "fill" and "navigation" get their own waits; every other kind waits as long as a click |
| Models.DefaultWaits | plugins/agent-browser-integration-testing/skills/agent-browser-integration-testing/scripts/models.py:128-150 | with the default settings every wait is 300, 500 or 1000 ms, and an unknown kind waits 500 ms like a click |
| Rules.CheckForm | plugins/agent-browser-integration-testing/skills/agent-browser-integration-test/scripts/parallel_executor.py:184-224 | a dependency exists iff both elements share a non-empty form id and one is a form field while the other is a submit button; the field is the target and the button the source, with weight 10 |
| Rules.CheckFormSymmetric | plugins/agent-browser-integration-testing/skills/agent-browser-integration-test/scripts/parallel_executor.py:201-222 | swapping the pair yields the same dependency: the field always goes first |
| Rules.CheckDom | plugins/agent-browser-integration-testing/skills/agent-browser-integration-test/scripts/parallel_executor.py:226-299 | a dependency exists iff the page reports a relation; the container is the target with weight 5, and for a shared tab or accordion the first element of the pair is the target with weight 3 |
| Rules.CheckState | plugins/agent-browser-integration-testing/skills/agent-browser-integration-test/scripts/parallel_executor.py:301-340 | a dependency exists iff the two are close and one is a consent checkbox while the other is a register button; the checkbox is the target, with weight 8 |
| Rules.SequentialFrom | plugins/agent-browser-integration-testing/skills/agent-browser-integration-test/scripts/parallel_executor.py:342-368 | a dependency exists iff the two share a container and some keyword pair matches both texts; it is then the second element after the first, with weight 10 |
| Rules.CheckSequential | plugins/agent-browser-integration-testing/skills/agent-browser-integration-test/scripts/parallel_executor.py:342-368 | a dependency exists iff the two share a container and some pair of the sequential keyword table matches both lower-cased texts; it then has the second element as source and the first as target, type SEQUENTIAL and weight 10 |
| Rules.CheckDangerous | plugins/agent-browser-integration-testing/skills/agent-browser-integration-test/scripts/parallel_executor.py:370-401 | a dependency exists iff exactly one of the two is dangerous; the dangerous one is the source (runs last), with weight 6 |
| Rules.CheckDangerousSymmetric | plugins/agent-browser-integration-testing/skills/agent-browser-integration-test/scripts/parallel_executor.py:383-399 | swapping the pair yields the same dependency |
| Rules.DetectDependencies | plugins/agent-browser-integration-testing/skills/agent-browser-integration-test/scripts/parallel_executor.py:146-182 | one dependency per rule that fires (at most five), in the order form, DOM, state, sequential, dangerous: each rule's finding sits after the findings of the earlier rules that fire; every one links exactly the two elements of the pair |
| Rules.RuleFindingsKept | plugins/agent-browser-integration-testing/skills/agent-browser-integration-test/scripts/parallel_executor.py:146-182 | whichever of the five rules fires has its dependency in the result, and a form-rule finding comes first |
| GraphModel.WithNodeWellFormed | plugins/agent-browser-integration-testing/skills/agent-browser-integration-test/scripts/parallel_executor.py:486-493 | adding a node keeps the adjacency table well formed, keeps a known selector's first element, and adds no edge |
| GraphModel.WithEdgeRelations | plugins/agent-browser-integration-testing/skills/agent-browser-integration-test/scripts/parallel_executor.py:495-504 | adding an edge between two nodes adds exactly the pair u -> v to the outgoing relation and to the incoming relation |
| GraphModel.WithEdgeWellFormed | plugins/agent-browser-integration-testing/skills/agent-browser-integration-test/scripts/parallel_executor.py:495-504 | adding an edge between two nodes keeps the table well formed |
| GraphModel.WithEdgeRecorded | plugins/agent-browser-integration-testing/skills/agent-browser-integration-test/scripts/parallel_executor.py:495-504 | after an edge is added, every adjacency pair still has a triple in the flat edge list |
| GraphModel.AncestorsClosed | plugins/agent-browser-integration-testing/skills/agent-browser-integration-test/scripts/parallel_executor.py:671-687 | the ancestors of s hold the parents of s and are closed under taking parents |
| GraphModel.AncestorsLeast | plugins/agent-browser-integration-testing/skills/agent-browser-integration-test/scripts/parallel_executor.py:671-687 | every parent-closed set that holds the parents of s holds all its ancestors, so the ancestors are exactly the transitive parents |
| GraphModel.AncestorsTransitive | plugins/agent-browser-integration-testing/skills/agent-browser-integration-test/scripts/parallel_executor.py:671-687 | the ancestors of an ancestor are ancestors |
| GraphModel.NoParentsNoAncestors | plugins/agent-browser-integration-testing/skills/agent-browser-integration-test/scripts/parallel_executor.py:682-687 | a node with an empty incoming list has no ancestors |
| GraphModel.InDegreeZero | plugins/agent-browser-integration-testing/skills/agent-browser-integration-test/scripts/parallel_executor.py:544-548 | a node's in-degree is zero iff no unprocessed node has an outgoing entry to it |
| GraphModel.InDegreeRemove | plugins/agent-browser-integration-testing/skills/agent-browser-integration-test/scripts/parallel_executor.py:561-565 | taking one more node lowers each in-degree by exactly that node's entries to it |
| Graph.DependencyGraph.constructor | plugins/agent-browser-integration-testing/skills/agent-browser-integration-test/scripts/parallel_executor.py:482-484 | a new graph has no nodes and no edges |
| Graph.DependencyGraph.AddNode | plugins/agent-browser-integration-testing/skills/agent-browser-integration-test/scripts/parallel_executor.py:486-493 | the new table is `WithNode` of the old one; a selector seen before keeps its element; the edge list is unchanged |
| Graph.DependencyGraph.AddEdge | plugins/agent-browser-integration-testing/skills/agent-browser-integration-test/scripts/parallel_executor.py:495-504 | when both endpoints are nodes, one entry goes to each adjacency list and one triple to the flat list; otherwise nothing changes; the graph stays well formed |
| Graph.DependencyGraph.BreakCycles | plugins/agent-browser-integration-testing/skills/agent-browser-integration-test/scripts/parallel_executor.py:580-611 | drops the edge `EdgeToBreak` chooses from both adjacency lists and leaves the flat edge list as it was; with no edge, nothing changes |
| Graph.DependencyGraph.TopologicalSort | plugins/agent-browser-integration-testing/skills/agent-browser-integration-test/scripts/parallel_executor.py:537-573 | returns every node exactly once, each after its parents and with the lightest ready node first, ties going to the node that entered the queue first; the final graph is the one obtained by dropping the chosen edge while a cycle remains, so it is acyclic, keeps the nodes and their elements and only loses edges; an acyclic graph is left untouched |
| TopoSort.InDegrees | plugins/agent-browser-integration-testing/skills/agent-browser-integration-test/scripts/parallel_executor.py:544-548 | every node's counter is the number of outgoing entries that point at it |
| TopoSort.ZeroDegreeNodes | plugins/agent-browser-integration-testing/skills/agent-browser-integration-test/scripts/parallel_executor.py:551 | the initial queue holds exactly the nodes of in-degree zero, each once |
| TopoSort.FirstLightest | plugins/agent-browser-integration-testing/skills/agent-browser-integration-test/scripts/parallel_executor.py:555-558 | the node popped after the stable sort is of least weight in the queue, and every earlier queue entry is strictly heavier |
| TopoSort.ReleaseSuccessors | plugins/agent-browser-integration-testing/skills/agent-browser-integration-test/scripts/parallel_executor.py:561-565 | after a node is taken, the counters account for its outgoing entries and the queue is again exactly the ready nodes not yet taken |
| TopoSort.KahnPass | plugins/agent-browser-integration-testing/skills/agent-browser-integration-test/scripts/parallel_executor.py:544-565 | one pass takes only ready nodes, always the lightest ready one, and stops only when no node is ready; nodes enter the queue in the order they become ready, and of two equally light ready nodes the one that entered the queue first is taken |
| TopoSort.ReadyOrderDistinct | plugins/agent-browser-integration-testing/skills/agent-browser-integration-test/scripts/parallel_executor.py:554-565 | a pass lists each node at most once, and only nodes |
| TopoSort.ReadyOrderKeepsAncestorsFirst | plugins/agent-browser-integration-testing/skills/agent-browser-integration-test/scripts/parallel_executor.py:554-565 | in a pass every node comes after all of its ancestors |
| TopoSort.ReadyOrderRespectsEdges | plugins/agent-browser-integration-testing/skills/agent-browser-integration-test/scripts/parallel_executor.py:554-565 | for every edge u -> v between listed nodes, u is listed before v |
| TopoSort.StuckMeansCycle | plugins/agent-browser-integration-testing/skills/agent-browser-integration-test/scripts/parallel_executor.py:567-571 | a pass that leaves a node out has met a cycle |
| TopoSort.StuckMeansEdge | plugins/agent-browser-integration-testing/skills/agent-browser-integration-test/scripts/parallel_executor.py:567-571 | a pass that leaves a node out leaves an edge for `_break_cycles` to remove |
| TopoSort.AcyclicPassComplete | plugins/agent-browser-integration-testing/skills/agent-browser-integration-test/scripts/parallel_executor.py:554-573 | on an acyclic graph one pass lists every node exactly once |
| TopoSort.PassLengthIffComplete | plugins/agent-browser-integration-testing/skills/agent-browser-integration-test/scripts/parallel_executor.py:567 | the length test `len(result) != len(self.nodes)` holds exactly when the pass missed a node |
| TopoSort.CompleteMeansAcyclic | plugins/agent-browser-integration-testing/skills/agent-browser-integration-test/scripts/parallel_executor.py:567-573 | a graph with a complete pass has no cycle |
| TopoSort.PassOutcome | plugins/agent-browser-integration-testing/skills/agent-browser-integration-test/scripts/parallel_executor.py:567 | after a pass the length test holds exactly when the graph is acyclic, and then every node is listed once |
| CycleBreak.Degrees | plugins/agent-browser-integration-testing/skills/agent-browser-integration-test/scripts/parallel_executor.py:583-586 | every node's in-degree counts the outgoing entries that point at it |
| CycleBreak.FirstMinPositive | plugins/agent-browser-integration-testing/skills/agent-browser-integration-test/scripts/parallel_executor.py:588-591 | picks the first node in dict order whose in-degree is the least positive one, or none when every degree is zero |
| CycleBreak.FirstLightestEntry | plugins/agent-browser-integration-testing/skills/agent-browser-integration-test/scripts/parallel_executor.py:595 | picks the first incoming entry of least weight |
| CycleBreak.ChooseEdge | plugins/agent-browser-integration-testing/skills/agent-browser-integration-test/scripts/parallel_executor.py:583-596 | the loops that count degrees and pick the node and its lightest incoming edge compute `EdgeToBreak` |
| CycleBreak.EdgeToBreakChoice | plugins/agent-browser-integration-testing/skills/agent-browser-integration-test/scripts/parallel_executor.py:588-596 | the chosen target has the least positive in-degree, and the chosen source is a lightest entry of its incoming list |
| CycleBreak.EdgeToBreakIffEdge | plugins/agent-browser-integration-testing/skills/agent-browser-integration-test/scripts/parallel_executor.py:588-593 | on a well-formed table an edge is chosen exactly when the graph has one |
| CycleBreak.EdgeToBreakIsEdge | plugins/agent-browser-integration-testing/skills/agent-browser-integration-test/scripts/parallel_executor.py:592-596 | the chosen pair is an edge of the graph |
| CycleBreak.RemoveEdgeRelations | plugins/agent-browser-integration-testing/skills/agent-browser-integration-test/scripts/parallel_executor.py:600-608 | the two list comprehensions remove exactly the pair u -> v from both relations |
| CycleBreak.RemoveEdgeWellFormed | plugins/agent-browser-integration-testing/skills/agent-browser-integration-test/scripts/parallel_executor.py:600-608 | dropping an edge keeps the table well formed |
| CycleBreak.RemoveEdgeShrinks | plugins/agent-browser-integration-testing/skills/agent-browser-integration-test/scripts/parallel_executor.py:600-604 | dropping an existing edge strictly lowers the number of outgoing entries, so the retries of `topological_sort` terminate |
| CycleBreak.RemoveEdgeRecorded | plugins/agent-browser-integration-testing/skills/agent-browser-integration-test/scripts/parallel_executor.py:600-608 | dropping an edge keeps every remaining adjacency pair recorded in the untouched flat list |
| CycleBreak.CycleHasEdge | plugins/agent-browser-integration-testing/skills/agent-browser-integration-test/scripts/parallel_executor.py:587-591 | a graph with a cycle has an edge, so the repair always finds one to drop |
| CycleBreak.Repaired | plugins/agent-browser-integration-testing/skills/agent-browser-integration-test/scripts/parallel_executor.py:567-572 | dropping the chosen edge until no cycle remains ends in an acyclic graph with the same nodes and elements and no new edge, and leaves an acyclic graph as it is |
| Grouping.Known | plugins/agent-browser-integration-testing/skills/agent-browser-integration-test/scripts/parallel_executor.py:629-631 | the selectors the grouping loop keeps are exactly those of the sorted list that name nodes, in order |
| Grouping.CutIntoGroups | plugins/agent-browser-integration-testing/skills/agent-browser-integration-test/scripts/parallel_executor.py:625-658 | the greedy loop produces numbered groups whose members, concatenated, are the known selectors in order |
| Grouping.GroupByParallelization | plugins/agent-browser-integration-testing/skills/agent-browser-integration-test/scripts/parallel_executor.py:613-669 | the groups partition the known selectors in order; each is non-empty, numbered by position, holds its members' elements, and carries its members plus their ancestors as dependencies; a group of two or more may run in parallel iff it holds no dangerous element; a new group starts only where the next selector has an ancestor in the last group's dependencies |
| Grouping.GroupMembersIndependent | plugins/agent-browser-integration-testing/skills/agent-browser-integration-test/scripts/parallel_executor.py:633-650 | when the order puts ancestors first, no member of a group is an ancestor of another member of the same group |
| Grouping.SortedGroupsIndependent | plugins/agent-browser-integration-testing/skills/agent-browser-integration-test/scripts/parallel_executor.py:941-946 | for the order `topological_sort` returns, every selector is known and group members are mutually independent |
| Analyzer.AnalyzeDependencies | plugins/agent-browser-integration-testing/skills/agent-browser-integration-test/scripts/parallel_executor.py:109-144 | the graph has one node per selector, holding the first element with that selector, and its edges are the target -> source edges of the dependencies found for every pair i < j, in loop order |
| Analyzer.AnalysisGraph | plugins/agent-browser-integration-testing/skills/agent-browser-integration-test/scripts/parallel_executor.py:119-139 | the analysed graph is well formed, its nodes are the elements' selectors, and it has an edge a -> b exactly when that pair is recorded in the flat list |
| Analyzer.PairEdgeFromPair | plugins/agent-browser-integration-testing/skills/agent-browser-integration-test/scripts/parallel_executor.py:132-139 | every edge of the analysis comes from a dependency found for a pair i < j |
| Analyzer.PairEdgeMeaning | plugins/agent-browser-integration-testing/skills/agent-browser-integration-test/scripts/parallel_executor.py:134-139 | such an edge runs from the dependency's target to its source and joins two element selectors |
| Analyzer.NodesOfKeepsFirst | plugins/agent-browser-integration-testing/skills/agent-browser-integration-test/scripts/parallel_executor.py:122-123 | re-adding a selector keeps the first element with it |
| Locks.TimeoutStep | plugins/agent-browser-integration-testing/skills/agent-browser-integration-test/scripts/parallel_executor.py:758-768 | a timed-out acquisition adds one conflict, and the fallback flag is on iff it already was or the count now exceeds 5 |
| Locks.TimeoutsCount | plugins/agent-browser-integration-testing/skills/agent-browser-integration-test/scripts/parallel_executor.py:758-768 | after n timeouts the count grew by exactly n, and the flag is on iff it was already on or the count passed 5; once on it stays on |
| Locks.FreshFallback | plugins/agent-browser-integration-testing/skills/agent-browser-integration-test/scripts/parallel_executor.py:731-732 | a fresh detector falls back exactly from the sixth timeout on |
| Locks.AgeLimit | plugins/agent-browser-integration-testing/skills/agent-browser-integration-test/scripts/parallel_executor.py:809 | a missing or zero maximum age falls back to the cleanup interval |
| Locks.Expired | plugins/agent-browser-integration-testing/skills/agent-browser-integration-test/scripts/parallel_executor.py:817-820 | exactly the selectors idle for longer than the age limit expire |
| Locks.Reclaimable | plugins/agent-browser-integration-testing/skills/agent-browser-integration-test/scripts/parallel_executor.py:822-825 | of the expired selectors, exactly those whose lock exists and is free are deleted |
| Locks.ReclaimKeepsHeld | plugins/agent-browser-integration-testing/skills/agent-browser-integration-test/scripts/parallel_executor.py:822-827 | deleting them keeps every held lock and deletes each lock together with its timestamp |
| Locks.Reclaim | plugins/agent-browser-integration-testing/skills/agent-browser-integration-test/scripts/parallel_executor.py:822-827 | the deleting loop removes exactly the reclaimable selectors from both dicts |
| Locks.LockTable.constructor | plugins/agent-browser-integration-testing/skills/agent-browser-integration-test/scripts/parallel_executor.py:723-734 | a new detector has no locks, no conflicts and no fallback |
| Locks.LockTable.AcquireStep | plugins/agent-browser-integration-testing/skills/agent-browser-integration-test/scripts/parallel_executor.py:756-785 | past the timeout the attempt fails and counts a conflict; otherwise a free or new lock is taken and stamped, and a held one means poll again |
| Locks.LockTable.Release | plugins/agent-browser-integration-testing/skills/agent-browser-integration-test/scripts/parallel_executor.py:787-797 | a held lock is freed and stamped; an unknown or free lock is left alone |
| Locks.LockTable.Cleanup | plugins/agent-browser-integration-testing/skills/agent-browser-integration-test/scripts/parallel_executor.py:799-833 | when cleanup is off or ran too recently nothing changes; otherwise the reclaimable locks go with their timestamps, held locks survive, and the time is noted |
| Locks.LockTable.ShouldFallback | plugins/agent-browser-integration-testing/skills/agent-browser-integration-test/scripts/parallel_executor.py:868-870 | the answer is the fallback flag |
| Locks.LockTable.Stats | plugins/agent-browser-integration-testing/skills/agent-browser-integration-test/scripts/parallel_executor.py:872-879 | reports the conflict count and the flag; the active count is the number of held locks, so it is at most the number of locks and is zero iff no lock is held |
| Locks.HeldBounded | plugins/agent-browser-integration-testing/skills/agent-browser-integration-test/scripts/parallel_executor.py:876-877 | the held locks are a subset of the known locks, and there are none iff every lock is free |
| Executor.TestSafe | plugins/agent-browser-integration-testing/skills/agent-browser-integration-test/scripts/parallel_executor.py:1038-1052 | a completed test gives its result; an exception gives a failed result for the element with no API calls and the exception's message |
| Executor.SequentialResults | plugins/agent-browser-integration-testing/skills/agent-browser-integration-test/scripts/parallel_executor.py:983-987 | one result per element, in order, each the safe test of that element |
| Executor.PathsCoverAll | plugins/agent-browser-integration-testing/skills/agent-browser-integration-test/scripts/parallel_executor.py:968-981 | every element is counted on exactly one path |
| Executor.SequentialOneResultEach | plugins/agent-browser-integration-testing/skills/agent-browser-integration-test/scripts/parallel_executor.py:968-987 | without parallel groups every element yields exactly one result |
| Executor.SuccessCountExtremes | plugins/agent-browser-integration-testing/skills/agent-browser-integration-test/scripts/parallel_executor.py:1094 | the success count equals the number of results iff every result succeeded, and is zero iff none did |
| Executor.SuccessPlusFailure | plugins/agent-browser-integration-testing/skills/agent-browser-integration-test/scripts/parallel_executor.py:1094-1095 | successes and failures add up to the number of results |
| Executor.SmartExecutor.constructor | plugins/agent-browser-integration-testing/skills/agent-browser-integration-test/scripts/parallel_executor.py:909-916 | a new executor has no results and zero statistics |
| Executor.SmartExecutor.ExecuteSequential | plugins/agent-browser-integration-testing/skills/agent-browser-integration-test/scripts/parallel_executor.py:979-987 | appends the safe result of each element in order and adds the group size to the sequential count |
| Executor.SmartExecutor.ExecuteGroup | plugins/agent-browser-integration-testing/skills/agent-browser-integration-test/scripts/parallel_executor.py:968-977 | counts the group, then takes the parallel path iff the group may run in parallel and has more than one element; each path adds the group size to its own counter |
| Executor.SmartExecutor.ExecuteGroups | plugins/agent-browser-integration-testing/skills/agent-browser-integration-test/scripts/parallel_executor.py:955-961 | after all groups the results are the groups' results in order, each element counted on its path, and the fallback statistic is on iff the detector answered yes after some group |
| Executor.SmartExecutor.RunGroupAt | plugins/agent-browser-integration-testing/skills/agent-browser-integration-test/scripts/parallel_executor.py:955-961 | one round of the loop moves the tally from group k to group k + 1 |
| Executor.SmartExecutor.ExecutionCounts | plugins/agent-browser-integration-testing/skills/agent-browser-integration-test/scripts/parallel_executor.py:1087-1096 | the total is the number of results, the success count is the number of successful results and the failure count the number of failed ones, and the two add up to the total |
| Discovery.ElementRisk | plugins/agent-browser-integration-testing/skills/agent-browser-integration-testing/scripts/run_test.py:605-636 | CRITICAL iff a critical keyword or an account-deletion phrase occurs; HIGH iff not and a high keyword occurs; MEDIUM iff neither and a medium keyword occurs; LOW otherwise |
| Discovery.AccountCheckAddsOnlyUserDeletion | plugins/agent-browser-integration-testing/skills/agent-browser-integration-testing/scripts/run_test.py:399-428 | `_should_be_critical` changes the verdict only for texts containing `注销用户`; every other phrase already holds a critical keyword |
| Discovery.EmptyTextIsLow | plugins/agent-browser-integration-testing/skills/agent-browser-integration-testing/scripts/run_test.py:618-636 | an element without text is LOW |
| Discovery.StandaloneDeregisterIsLow | plugins/agent-browser-integration-testing/skills/agent-browser-integration-testing/scripts/run_test.py:388-393 | as written, a button labelled `注销` alone is LOW |
| Discovery.ElementRiskIntended | plugins/agent-browser-integration-testing/skills/agent-browser-integration-testing/scripts/run_test.py:399-411 | agrees with the written level on CRITICAL; it is HIGH iff the written level is HIGH, or it is lower and the text contains `注销` |
| Discovery.IntendedDeregisterLevels | plugins/agent-browser-integration-testing/skills/agent-browser-integration-testing/scripts/run_test.py:403-408 | with the correction, `注销` alone is HIGH and `注销账户` stays CRITICAL |
| Discovery.CategoryOf | plugins/agent-browser-integration-testing/skills/agent-browser-integration-testing/scripts/run_test.py:653-666 | the bucket of a visible element: dangerous iff CRITICAL, logout iff HIGH with a logout word, otherwise by element type |
| Discovery.CategoryUnaffectedByFix | plugins/agent-browser-integration-testing/skills/agent-browser-integration-testing/scripts/run_test.py:653-666 | the corrected risk level puts every element into the same bucket |
| Discovery.CategorizeElements | plugins/agent-browser-integration-testing/skills/agent-browser-integration-testing/scripts/run_test.py:638-668 | each bucket holds, in input order, exactly the visible elements of its category |
| Discovery.InCategoryMembers | plugins/agent-browser-integration-testing/skills/agent-browser-integration-testing/scripts/run_test.py:649-666 | an element is in bucket c iff it is visible and its category is c |
| Discovery.BucketsPartition | plugins/agent-browser-integration-testing/skills/agent-browser-integration-testing/scripts/run_test.py:649-666 | the bucket sizes add up to the number of visible elements |
| Network.ParseApiCall | plugins/agent-browser-integration-testing/skills/agent-browser-integration-testing/scripts/run_test.py:320-373 | a request is dropped iff its URL is a data or blob URL or its lower-cased path ends in a static extension; otherwise it becomes its method (GET by default), path plus query, status and duration (0 by default) |
| Network.ApiScriptDropped | plugins/agent-browser-integration-testing/skills/agent-browser-integration-testing/scripts/run_test.py:320-355 | as written, a request for `/api/user.js` is dropped |
| Network.ParseApiCallIntended | plugins/agent-browser-integration-testing/skills/agent-browser-integration-testing/scripts/run_test.py:321-328 | a static extension drops a request only when its path has no API marker |
| Network.IntendedKeepsMore | plugins/agent-browser-integration-testing/skills/agent-browser-integration-testing/scripts/run_test.py:350-361 | the correction keeps every call the written parser keeps, and differs only on static-looking paths under an API marker |
| Network.IntendedKeepsApiScript | plugins/agent-browser-integration-testing/skills/agent-browser-integration-testing/scripts/run_test.py:327 | the correction keeps `/api/user.js` as a GET call |
| Network.IntendedKeepsApiRoutes | plugins/agent-browser-integration-testing/skills/agent-browser-integration-testing/scripts/run_test.py:357-361 | the correction keeps every non-inline request under an API marker |
| Network.ParseFrom | plugins/agent-browser-integration-testing/skills/agent-browser-integration-testing/scripts/run_test.py:296-301 | the loop returns the calls among the log entries from the cursor on, in order |
| Network.CallsAreKept | plugins/agent-browser-integration-testing/skills/agent-browser-integration-testing/scripts/run_test.py:296-301 | every captured call is the parse of a request in the log that the filter keeps |
| Network.CapturesChain | plugins/agent-browser-integration-testing/skills/agent-browser-integration-testing/scripts/run_test.py:290-304 | two captures against a growing log return, together, exactly the calls of the new part of the log: the cursor neither skips nor repeats a request |
| Network.NetworkMonitor.constructor | plugins/agent-browser-integration-testing/skills/agent-browser-integration-testing/scripts/run_test.py:278-282 | a new monitor has cursor 0 and no calls |
| Network.NetworkMonitor.StartRecording | plugins/agent-browser-integration-testing/skills/agent-browser-integration-testing/scripts/run_test.py:284-288 | the cursor goes back to 0 and the captured calls are kept |
| Network.NetworkMonitor.CaptureNewRequests | plugins/agent-browser-integration-testing/skills/agent-browser-integration-testing/scripts/run_test.py:290-304 | returns the calls among the entries from the cursor on, appends them to all calls, and moves the cursor to the end of the log |
| Network.NetworkMonitor.ApiSummary | plugins/agent-browser-integration-testing/skills/agent-browser-integration-testing/scripts/run_test.py:311-318 | six buckets; each holds, in capture order, exactly the calls whose method maps to it, and unknown methods go to OTHER |
| Network.InBucketMembers | plugins/agent-browser-integration-testing/skills/agent-browser-integration-testing/scripts/run_test.py:315-317 | a call is in a bucket iff that bucket is its method's |
| Network.BucketsCoverAll | plugins/agent-browser-integration-testing/skills/agent-browser-integration-testing/scripts/run_test.py:314-317 | the six buckets hold every call exactly once |
| FormFiller.FieldType | plugins/agent-browser-integration-testing/skills/agent-browser-integration-testing/scripts/run_test.py:693 | a missing or empty input type reads as "text" |
| FormFiller.NameRule | plugins/agent-browser-integration-testing/skills/agent-browser-integration-testing/scripts/run_test.py:697-704 | the name rules apply in order e-mail, password, phone, URL; each applies iff its word occurs and no earlier one does |
| FormFiller.GeneratorKey | plugins/agent-browser-integration-testing/skills/agent-browser-integration-testing/scripts/run_test.py:691-707 | the key always names a generator; a name rule wins, then the type when it names a generator, else "text" |
| FormFiller.NameBeatsType | plugins/agent-browser-integration-testing/skills/agent-browser-integration-testing/scripts/run_test.py:696-704 | a field whose name matches a rule gets that generator whatever its type |
| FormFiller.UntypedFieldGetsText | plugins/agent-browser-integration-testing/skills/agent-browser-integration-testing/scripts/run_test.py:693-707 | without a name rule, an untyped field gets the text generator |
| FormFiller.RealOptions | plugins/agent-browser-integration-testing/skills/agent-browser-integration-testing/scripts/run_test.py:753 | keeps exactly the options that are neither empty nor a placeholder |
| FormFiller.PickAt | plugins/agent-browser-integration-testing/skills/agent-browser-integration-testing/scripts/run_test.py:755 | Python indexing of `valid[min(index, len(valid) - 1)]`: a large index picks the last option, a negative one counts from the end, and one before the start fails |
| FormFiller.SelectOption | plugins/agent-browser-integration-testing/skills/agent-browser-integration-testing/scripts/run_test.py:748-762 | a value is chosen iff a real option exists, the index is in range and the browser accepts; it is then a real option of the list at the clamped position, counted from the end for a negative index |
| FormFiller.RealOptionsInOrder | plugins/agent-browser-integration-testing/skills/agent-browser-integration-testing/scripts/run_test.py:753 | the filter keeps the real options in their original order |
| FormFiller.DefaultPicksFirstReal | plugins/agent-browser-integration-testing/skills/agent-browser-integration-testing/scripts/run_test.py:748-758 | with index 0 the chosen value is the first real option of the list |
| LinkTest.BaseUrl | plugins/agent-browser-integration-testing/skills/agent-browser-integration-testing/scripts/run_test.py:1100 | the URL up to its first '#': a prefix with no '#', followed in the URL by '#' when shorter |
| LinkTest.Fragment | plugins/agent-browser-integration-testing/skills/agent-browser-integration-testing/scripts/run_test.py:1141-1142 | none iff the URL has no '#'; otherwise the text between the first and the second '#' |
| LinkTest.LinkResult | plugins/agent-browser-integration-testing/skills/agent-browser-integration-testing/scripts/run_test.py:1095-1195 | a blank starting page fails with the invalid-URL message; otherwise success iff the base URL moved to a non-blank page, an API was called, the fragment changed or the title changed |
| LinkTest.AnchorLinkSucceeds | plugins/agent-browser-integration-testing/skills/agent-browser-integration-testing/scripts/run_test.py:1140-1162 | a link that only adds a fragment counts as working |
| LinkTest.SilentFailure | plugins/agent-browser-integration-testing/skills/agent-browser-integration-testing/scripts/run_test.py:1163-1195 | as written, a click with no effect fails, yet the result carries no error message |
| LinkTest.LinkResultIntended | plugins/agent-browser-integration-testing/skills/agent-browser-integration-testing/scripts/run_test.py:1163-1166 | same success decision as written, and a failed result after the click carries the no-action message |
| Report.TestReport.constructor | plugins/agent-browser-integration-testing/skills/agent-browser-integration-testing/scripts/run_test.py:68-101 | a new report holds exactly the header lines and zero counters |
| Report.TestReport.LogTestResult | plugins/agent-browser-integration-testing/skills/agent-browser-integration-testing/scripts/run_test.py:123-135 | adds one to the total and to passed or failed, and appends exactly one result row |
| Report.TestReport.AddRows | plugins/agent-browser-integration-testing/skills/agent-browser-integration-testing/scripts/run_test.py:115-116 | appends the rows and leaves the counters alone |
| Report.TestReport.AddApiCoverageSection | plugins/agent-browser-integration-testing/skills/agent-browser-integration-testing/scripts/run_test.py:177-210 | appends the coverage lines of the calls and leaves the counters alone |
| Report.FirstPerKey | plugins/agent-browser-integration-testing/skills/agent-browser-integration-testing/scripts/run_test.py:186-190 | the de-duplicating loop returns the first call for each "METHOD endpoint" key, in order of first use |
| Report.DedupFirstPerKey | plugins/agent-browser-integration-testing/skills/agent-browser-integration-testing/scripts/run_test.py:186-195 | de-duplication keeps one call per key, the first one, and loses no key |
| Report.CountMethods | plugins/agent-browser-integration-testing/skills/agent-browser-integration-testing/scripts/run_test.py:202-204 | the counting loop yields the methods in order of first use and, for each, its number of calls |
| Report.Bump | plugins/agent-browser-integration-testing/skills/agent-browser-integration-testing/scripts/run_test.py:204 | one more count for the method; every other count is unchanged |
| Report.Sort | plugins/agent-browser-integration-testing/skills/agent-browser-integration-testing/scripts/run_test.py:209 | a sorted permutation of its input |
| Report.SortKeepsDistinct | plugins/agent-browser-integration-testing/skills/agent-browser-integration-testing/scripts/run_test.py:209 | sorting distinct methods keeps them distinct and keeps the same members |
| Report.MethodOrderFacts | plugins/agent-browser-integration-testing/skills/agent-browser-integration-testing/scripts/run_test.py:202-204 | the dict's keys are distinct and are exactly the methods used |
| Report.MethodTableComplete | plugins/agent-browser-integration-testing/skills/agent-browser-integration-testing/scripts/run_test.py:206-210 | the per-method table lists each used method once, in sorted order, and its counts add up to the number of calls |
| Report.CountsCoverAll | plugins/agent-browser-integration-testing/skills/agent-browser-integration-testing/scripts/run_test.py:202-204 | over a duplicate-free list naming every method used, the counts add up to the number of calls |
| Report.CoverageRowsFirstPerKey | plugins/agent-browser-integration-testing/skills/agent-browser-integration-testing/scripts/run_test.py:177-210 | the table has one row per distinct key, each the first call with it, and the section's length is fixed by the numbers of keys and methods |
| Report.CoverageTable | plugins/agent-browser-integration-testing/skills/agent-browser-integration-testing/scripts/run_test.py:185-210 | for a non-empty capture, the loops produce exactly the specified section body |
| Report.CountTable | plugins/agent-browser-integration-testing/skills/agent-browser-integration-testing/scripts/run_test.py:209-210 | the rows are the sorted methods, each with its count |
| ReportValidator.MatchError | plugins/agent-browser-integration-testing/skills/agent-browser-integration-testing/scripts/validate-report.js:21-25 | no error iff the pattern matches; otherwise exactly its message |
| ReportValidator.GetSection | plugins/agent-browser-integration-testing/skills/agent-browser-integration-testing/scripts/validate-report.js:43-53 | none iff the start header is absent; otherwise the text from the start header up to the first end header after it, or to the end |
| ReportValidator.InOrderFrom | plugins/agent-browser-integration-testing/skills/agent-browser-integration-testing/scripts/validate-report.js:27-41 | at most one error: for the first header that is missing or not after the previous one |
| ReportValidator.InOrderIff | plugins/agent-browser-integration-testing/skills/agent-browser-integration-testing/scripts/validate-report.js:27-41 | the order check passes iff every header is present and each first occurrence comes after the previous one |
| ReportValidator.Steps | plugins/agent-browser-integration-testing/skills/agent-browser-integration-testing/scripts/validate-report.js:80-89 | keeps exactly the rows whose step is not the header word |
| ReportValidator.LogErrors | plugins/agent-browser-integration-testing/skills/agent-browser-integration-testing/scripts/validate-report.js:78-98 | no log section, no error; fewer than two steps gives one error; otherwise no error iff the last command is non-empty and holds no `<<FILL` |
| ReportValidator.PlaceholderErrors | plugins/agent-browser-integration-testing/skills/agent-browser-integration-testing/scripts/validate-report.js:104-107 | an error iff the report contains `<<FILL:` |
| ReportValidator.EvidenceErrors | plugins/agent-browser-integration-testing/skills/agent-browser-integration-testing/scripts/validate-report.js:109-123 | no error iff the evidence section exists, has an image and has at least as many captions as images |
| ReportValidator.Non2xx | plugins/agent-browser-integration-testing/skills/agent-browser-integration-testing/scripts/validate-report.js:129-139 | keeps exactly the overview rows whose status is not 2xx |
| ReportValidator.MissingDetailErrors | plugins/agent-browser-integration-testing/skills/agent-browser-integration-testing/scripts/validate-report.js:145-150 | one error per undescribed row; no error iff every non-2xx row is described |
| ReportValidator.NetworkErrors | plugins/agent-browser-integration-testing/skills/agent-browser-integration-testing/scripts/validate-report.js:125-154 | no overview, no error; non-2xx rows without a details section give one error; otherwise the missing-detail errors |
| ReportValidator.ExitCode | plugins/agent-browser-integration-testing/skills/agent-browser-integration-testing/scripts/validate-report.js:156-165 | exit status 0 iff no error was collected, and 1 otherwise |
| ReportValidator.PlaceholderFails | plugins/agent-browser-integration-testing/skills/agent-browser-integration-testing/scripts/validate-report.js:104-107 | a leftover placeholder fails the report whatever else it holds |
| ReportValidator.UndocumentedFailureFails | plugins/agent-browser-integration-testing/skills/agent-browser-integration-testing/scripts/validate-report.js:141-150 | an undescribed non-2xx call fails the report with that call's message |
| ReportValidator.DisorderFails | plugins/agent-browser-integration-testing/skills/agent-browser-integration-testing/scripts/validate-report.js:63-73 | a report whose headers are out of order fails |
| ReportValidator.Validation.constructor | plugins/agent-browser-integration-testing/skills/agent-browser-integration-testing/scripts/validate-report.js:19 | validation starts with no errors |
| ReportValidator.Validation.RequireMatch | plugins/agent-browser-integration-testing/skills/agent-browser-integration-testing/scripts/validate-report.js:21-25 | appends the pattern's error, if any |
| ReportValidator.Validation.RequireInOrder | plugins/agent-browser-integration-testing/skills/agent-browser-integration-testing/scripts/validate-report.js:27-41 | the loop appends exactly the order check's error, if any |
| ReportValidator.Validation.CheckExecutionLog | plugins/agent-browser-integration-testing/skills/agent-browser-integration-testing/scripts/validate-report.js:78-98 | appends exactly the execution-log errors |
| ReportValidator.Validation.CheckPlaceholders | plugins/agent-browser-integration-testing/skills/agent-browser-integration-testing/scripts/validate-report.js:104-107 | appends exactly the placeholder error, if any |
| ReportValidator.Validation.CheckEvidence | plugins/agent-browser-integration-testing/skills/agent-browser-integration-testing/scripts/validate-report.js:109-123 | appends exactly the evidence errors |
| ReportValidator.Validation.CheckNetwork | plugins/agent-browser-integration-testing/skills/agent-browser-integration-testing/scripts/validate-report.js:125-154 | appends exactly the network errors |
| ReportValidator.Validation.Run | plugins/agent-browser-integration-testing/skills/agent-browser-integration-testing/scripts/validate-report.js:55-165 | collects all errors of the script in order, and the exit status is 1 iff there are any |
| ReportValidator.StepRows | plugins/agent-browser-integration-testing/skills/agent-browser-integration-testing/scripts/validate-report.js:83-89 | the row loop computes `Steps` |
| ReportValidator.Non2xxRows | plugins/agent-browser-integration-testing/skills/agent-browser-integration-testing/scripts/validate-report.js:132-139 | the row loop computes `Non2xx` |
| ReportValidator.DetailErrors | plugins/agent-browser-integration-testing/skills/agent-browser-integration-testing/scripts/validate-report.js:145-150 | the error loop computes `MissingDetailErrors` |
| McpCaller.ValidateInput | plugins/mcp-faster-caller/skills/mcp-faster-caller/scripts/call_mcp.py:100-113 | the stripped text is accepted iff it is non-empty and at most 1000 characters; otherwise the empty or too-long error |
| McpCaller.Unquote | plugins/mcp-faster-caller/skills/mcp-faster-caller/scripts/call_mcp.py:139-143 | exactly one layer of matching quotes is removed from a value of two or more characters; any other value is unchanged |
| McpCaller.ArgumentsOf | plugins/mcp-faster-caller/skills/mcp-faster-caller/scripts/call_mcp.py:116-148 | blank text gives ""; braced text that decodes gives the decoded value; otherwise text with '=' gives its non-empty key=value dict, with its entries and its keys in insertion order, and anything else gives the stripped text |
| McpCaller.ParseArguments | plugins/mcp-faster-caller/skills/mcp-faster-caller/scripts/call_mcp.py:116-148 | the method computes `ArgumentsOf` |
| McpCaller.CollectPairs | plugins/mcp-faster-caller/skills/mcp-faster-caller/scripts/call_mcp.py:133-144 | the pair loop stores each key=value token under its key, and builds the dict's key order |
| McpCaller.NamedKeysDistinct | plugins/mcp-faster-caller/skills/mcp-faster-caller/scripts/call_mcp.py:133-144 | the key order lists no key twice |
| McpCaller.NamedKeysListDict | plugins/mcp-faster-caller/skills/mcp-faster-caller/scripts/call_mcp.py:133-144 | a key is in the key order iff it is a key of the dict |
| McpCaller.KeysInFirstOccurrenceOrder | plugins/mcp-faster-caller/skills/mcp-faster-caller/scripts/call_mcp.py:133-144 | keys come in the order of their first occurrence among the tokens; a later overwrite does not move a key |
| McpCaller.EqualsGivesDict | plugins/mcp-faster-caller/skills/mcp-faster-caller/scripts/call_mcp.py:130-146 | text that does not decode and contains '=' always becomes a dict, so the plain-string fallback after the pair loop is never reached |
| McpCaller.NamedHasKeyOf | plugins/mcp-faster-caller/skills/mcp-faster-caller/scripts/call_mcp.py:133-144 | every token with '=' contributes its key |
| McpCaller.LastPairWins | plugins/mcp-faster-caller/skills/mcp-faster-caller/scripts/call_mcp.py:133-144 | for each key the value is that of the last token with the key |
| McpCaller.ParseMcpCall | plugins/mcp-faster-caller/skills/mcp-faster-caller/scripts/call_mcp.py:151-212 | validation errors pass through; fewer than two words is a format error; with two words or more the call succeeds iff the lower-cased first word is a known alias, and an unknown one is refused naming it; a success has a known lower-cased alias with its server, the second word as command, the stripped text as original, as arguments `parse_arguments` of what follows the second word, stripped, and "json" format iff the arguments are a dict; the empty-command error is never produced |
| McpCaller.UnreachableNeverMatched | plugins/mcp-faster-caller/skills/mcp-faster-caller/scripts/call_mcp.py:184-191 | an alias with an upper-case letter or a space can never be matched |
| McpCaller.DeadAliases | plugins/mcp-faster-caller/skills/mcp-faster-caller/scripts/call_mcp.py:26-87 | the aliases "API", "API docs", "API documentation", "API文档", "web page", "read web", "web reader" and "pdf reader" are in the table but can never be matched |
| Text.StripIsSlice | plugins/mcp-faster-caller/skills/mcp-faster-caller/scripts/call_mcp.py:105 | the result is the slice of the input left once every leading and every trailing white-space character is removed; its ends are not white space |
| Text.SplitMaxFromAgrees | plugins/mcp-faster-caller/skills/mcp-faster-caller/scripts/call_mcp.py:173 | `split(maxsplit=2)` gives at most three parts; all but the last are the words of the text |

## Left out

- Threads: the thread pool of `_execute_parallel` (parallel_executor.py:989-1036) is not modelled. What a parallel group delivers is the `pooled` argument of `ExecuteGroup`.
- Thread safety: the `threading.Lock` guards of `NetworkMonitor` and `RuntimeConflictDetector`, and the `global_lock`, are not modelled.
- `_test_element_with_lock` (parallel_executor.py:1054-1070) is not modelled. Only the parallel path calls it.
- Polling in `acquire_lock`: the sleep loop is not modelled. `Locks.LockTable.AcquireStep` is one pass, and the elapsed time and the clock are arguments.
- The browser's JavaScript is not modelled: the DOM relation, `_are_elements_close`, `_share_same_container` and `check_dom_conflict` (parallel_executor.py:403-477, 835-866). Their answers come in as `Rules.Page` or as a flag.
- `browser_manager.py` is not part of this model. Every browser answer is an argument: URL, title, network log, selection outcome and test attempts.
- The `form_elements` index built in `analyze_dependencies` is not modelled. It is passed on but never consulted by the rules.
- `has_cycle`, `to_dict` and `_log_statistics` are not modelled. They only report or log, and the executor does not call `has_cycle`.
- Graph.DependencyGraph.EdgeCount: returns the length of the flat edge list, which `_break_cycles` leaves stale. No property beyond that is stated.
- TopoSort.KahnPass: the pass picks the first node of least weight in queue order instead of re-sorting the queue. This is equivalent to Python's stable `sort` followed by `pop(0)`, because a stable sort never reorders nodes of equal weight. The queue's reordering itself is not modelled. The contract orders arrivals by the step at which nodes became ready; the order among nodes that become ready at the same step (key order at the start, outgoing-list order after a node is taken) is what the code does but is not stated.
- Recursion in `topological_sort`: the retry is modelled as recursion on the number of outgoing entries, which each `_break_cycles` lowers. The proof depends on that bound.
- Python's recursion limit is not modelled. `topological_sort` calls itself once per repaired edge (parallel_executor.py:571), and `_get_ancestors` once per parent (parallel_executor.py:671-687). About a thousand repairs, or a parent chain about a thousand deep, raises `RecursionError` in the program. `Graph.DependencyGraph.TopologicalSort`, `CycleBreak.Repaired` and `GraphModel.Ancestors` always return.
- Dict ordering is modelled as a key sequence: the nodes' insertion order, the order of `method_counts` and the order of named arguments (`McpCaller.NamedKeys`, printed by `json.dumps` in `main`). Python's `sorted` on strings is modelled by a lexicographic order on code points.
- Character handling: `str.lower()` is modelled for ASCII letters only; no Unicode case folding is modelled. White space for `strip`/`split` is Python's full `str.isspace()` set (`Text.IsSpace`).
- Oracles: `urllib.parse.urlparse`, `json.loads` and the regular expressions of `validate-report.js` are oracles (`Network.UrlParts`, `McpCaller.JsonDecoder`, `ReportValidator.Scanner`). Their own behaviour, such as Python's `$` also matching before a final newline, is not modelled.
- Unmodelled generator functions: the value generators of the form filler (time, random, date) are not modelled. `FormFiller.GeneratorKey` stops at the generator's key.
- Unmodelled filler methods: `fill_input`, `check_checkbox`, `select_radio`, `fill_form` and `submit_form` are not modelled. They only call the browser.
- LinkTest.LinkResult: the retry loop that returns to the starting page is not modelled, because it does not affect the result. The exception path after the click is not modelled either, and `monitor is None` is the same as an empty capture.
- Not modelled from `call_mcp.py`: the `isinstance(text, str)` check and the catch-all re-raise as `MCPParserError`. Errors are the `ParseError` datatype, not the message texts with their alias suggestions.
- Floating point is not modelled: timestamps and timeouts are `real`, and the report's pass rate and durations are not modelled.
- `TestConfig` is not modelled from the environment: its environment-variable parsing is left out. `Models.DefaultConfig` holds the defaults.
- Exit status 2 of `validate-report.js` is not modelled: a missing path argument or a report file that cannot be read stops the script with status 2 (validate-report.js:6-17). `ReportValidator.Validation.Run` starts from the report's text, so its exit status is only ever 0 or 1.
- `ReportValidator.Steps`: the `step !== "步骤"` filter is modelled, but it can never drop a row, because the step pattern only matches digits.
- Risk assessment and report saving are not modelled. This covers `ConfirmationHandler`, `IntegrationTester`, `discover_all_interactive_elements`, the interaction matrix and the summary sections of the report. They drive the browser or the terminal.

## Findings

| source | as written | input that shows it | evidently intended | confidence | as-written member | corrected member |
|---|---|---|---|---|---|---|
| plugins/agent-browser-integration-testing/skills/agent-browser-integration-testing/scripts/run_test.py:388-428 | `注销` is left out of the HIGH list, and `_should_be_critical` never classifies it, so a lone `注销` falls through to LOW | an element with text `注销` | the docstrings say `注销` alone means logout and is HIGH | not executed | Discovery.StandaloneDeregisterIsLow | Discovery.ElementRiskIntended |
| plugins/agent-browser-integration-testing/skills/agent-browser-integration-testing/scripts/run_test.py:320-361 | every path ending in a static extension is dropped before the API-marker check, which does nothing | a GET request for `/api/user.js` | the docstring keeps static-looking endpoints under an API route such as `/api/user.js` | not executed | Network.ApiScriptDropped | Network.ParseApiCallIntended |
| plugins/agent-browser-integration-testing/skills/agent-browser-integration-testing/scripts/run_test.py:1163-1195 | the no-action message is assigned to `error` but never put into the returned result | a click with no navigation, API call, fragment or title change | a failed result carries the no-action message | not executed | LinkTest.SilentFailure | LinkTest.LinkResultIntended |
