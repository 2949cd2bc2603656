# Dependency-graph builder — a Dafny model

The repository builds the dependency graph of a package, npm packages in particular.
A `DependencyGraph` object keeps an adjacency map from each package name to the set of names it depends on.

- `add_dependency` grows that map.
- Two depth-bounded, depth-first traversals expand a start package. Both are called "bfs". They share one `visited` set and call `add_dependency` for every dependency they see.
  - `bfs_test_mode` reads dependencies from an in-memory fixture `test_repo`.
  - `bfs_with_recursion` reads them from a registry fetch whose exceptions it catches.
- `has_cycles` checks the recorded edges for a directed cycle.

`graph.py` is an older variant of the same class.

- Its `add_dependency` also records an empty dependency name.
- It has an instance field `visited` that nothing uses.
- It has only the fetching traversal.

The comparator in `npm_comparison.py` has two pure helpers:

- one extracts an install order from the JSON that `npm install --json` prints;
- `compare_orders` compares two orders by set algebra, sequence equality and list lengths.

Modules:

- `Wrappers` (`wrappers.dfy`): `Option`.
- `Graphs` (`graphs.dfy`): the algebra both builders share.
  - Names and the `Graph` map.
  - `AddEdge`, which is `add_dependency`. Its `filterEmpty` flag tells the two variants apart.
  - Dependency sources: the fixture, and a fetch oracle `Name -> Option<seq<Name>>` in which `None` stands for any exception.
  - `Record`: what a traversal leaves in the graph after expanding a set of nodes.
  - `ReachableWithin`: reachability within a number of steps.
- `Cycles` (`cycles.dfy`): the `dfs(node, path)` search of `has_cycles` as a pure function. It is proved to decide whether the edge relation has a directed cycle.
- `DependencyGraphModel` (`dependency_graph.dfy`): the class of `dependency_graph.py`.
- `LegacyGraphModel` (`legacy_graph.dfy`): the class of `graph.py`.
- `NpmComparison` (`npm_comparison.dfy`): the npm JSON as a datatype of ordered `(name, node)` entries, the extraction as a method, and the comparison.
- `Scenarios` (`scenarios.dfy`): whole runs on small fixtures, derived from the contracts alone.

How the Python semantics are modelled:

- **The shared `visited` set.** Python mutates one `visited` set through the whole recursion. Here each call takes the set it was handed and returns the grown set. A top-level call, where Python passes `visited=None`, passes `{}`.
- **Iteration order.** The fixture loop iterates over a Python `set`, whose order is unspecified. The model takes the next name with `:|`, so every proved property holds for every iteration order. The fetch loop iterates over the dependency object's keys in their order, so it walks a `seq`.
- **The loop bodies.** Each traversal is split in two mutually recursive methods:
  - the guard and mark part (`BfsTestMode`, `BfsWithRecursion`);
  - the loop over the dependencies of the marked node (`VisitFixtureDependencies`, `VisitFetchedDependencies`).
  
  Termination is by `maxDepth - currentDepth`.
- **What a traversal records.** Each traversal's contract states the new graph exactly. It is `Record(old graph, source, newly visited)`:
  - every newly visited node with at least one dependency name becomes a key and gains exactly the edges `add_dependency` keeps;
  - a node with no dependencies is not added;
  - nothing else changes.

## Model

| member | source | states |
|---|---|---|
| `DependencyGraphModel.DependencyGraph.constructor` | dependency_graph.py:5-6 | a fresh builder has an empty graph |
| `DependencyGraphModel.DependencyGraph.AddDependency` | dependency_graph.py:8-12 | the new graph is the old one with `package` a key and the edge to `dependency` added unless the name is empty |
| `Graphs.AddEdge` | dependency_graph.py:8-12 | add_dependency on the map, with `filterEmpty` selecting dependency_graph.py's empty-name guard (graph.py:11-14 has none); what it does is stated by `Graphs.AddEdgeShape`, `Graphs.AddEdgeIdempotent` and `Graphs.AddEdgeVariants` |
| `Graphs.AddEdgeShape` | dependency_graph.py:8-12 | after add_dependency(p, d), `p` is a key, `graph[p]` is the old set plus `d` (unless `d` is an empty, filtered name), and every other key keeps its value |
| `Graphs.AddEdgeIdempotent` | dependency_graph.py:9-12 | calling add_dependency twice with the same arguments leaves the same graph as calling it once (both variants) |
| `Graphs.AddEdgeVariants` | graph.py:11-14 | the two add_dependency variants agree on every non-empty name; on the empty name the filtering one only makes `p` a key, while graph.py's records an edge to `""` |
| `Graphs.RecordShape` | dependency_graph.py:75-92 | after expanding the nodes `vs`, the keys are the old ones plus the nodes of `vs` that have dependency names; other keys are untouched; an expanded node has an edge to a dependency name exactly when add_dependency keeps that name |
| `Graphs.RecordKeepsNoEmptyTargets` | dependency_graph.py:11-12 | a traversal of the filtering builder never records an edge to the empty name |
| `Graphs.ReachStaysInside` | dependency_graph.py:82-90 | reachability within a depth never leaves a set of names closed under the dependency source; this bounds what any traversal can visit |
| `Graphs.WithinClosed` | dependency_graph.py:82-90 | every node within reach of a closed set of names lies inside that set |
| `Graphs.RecordSilentSource` | dependency_graph.py:54-55 | a source whose every fetch fails records no edge |
| `Graphs.ReachSilentSource` | dependency_graph.py:54-55 | nothing except the start is reachable through a source whose every fetch fails |
| `DependencyGraphModel.DependencyGraph.BfsTestMode` | dependency_graph.py:59-94 | the depth guard and the visited guard change nothing; otherwise the start is visited, its direct dependencies are visited when one more level remains, the result contains the given `visited`, every newly visited node is reachable from the start within `maxDepth - currentDepth - 1` steps, and the graph gains exactly the fixture's kept edges out of the newly visited nodes |
| `DependencyGraphModel.DependencyGraph.VisitFixtureDependencies` | dependency_graph.py:82-92 | the dependency loop, in any order: every dependency gets its edge from the start, each unvisited one is expanded one level deeper, and the same reachability and recorded-edge facts hold |
| `DependencyGraphModel.DependencyGraph.BfsWithRecursion` | dependency_graph.py:14-57 | the same guarantees over a fallible fetch; when the fetch for the start fails, the start is visited, nothing else is, the graph is unchanged, and the call returns normally |
| `DependencyGraphModel.DependencyGraph.VisitFetchedDependencies` | dependency_graph.py:42-52 | the loop over the fetched dependency names in their order: each gets its edge, each unvisited one is expanded, and the same reachability and recorded-edge facts hold |
| `DependencyGraphModel.DependencyGraph.GetAllDependencies` | dependency_graph.py:96-97 | returns the recorded adjacency map |
| `DependencyGraphModel.DependencyGraph.HasCycles` | dependency_graph.py:99-115 | true exactly when the recorded edges contain a directed cycle; it only reads the graph |
| `Cycles.Dfs` | dependency_graph.py:100-110 | the nested `dfs(node, path)`: true on a node already on the path, false on a node with no recorded edges, otherwise whether some neighbour reports a cycle with its own copy of the path extended by the node (the same text as graph.py:62-72); it terminates because each step puts one more key on the path, and `Cycles.HasCyclesCorrect` states what it decides |
| `Cycles.HasCycles` | dependency_graph.py:112-115 | the outer loop: some key starts a search that reports a cycle; `Cycles.HasCyclesCorrect` proves this holds exactly when the edges contain a directed cycle |
| `Cycles.HasCyclesCorrect` | dependency_graph.py:99-115 | the depth-first search with a per-branch copy of the path reports a cycle iff some walk along recorded edges returns to its start |
| `Cycles.SelfLoopIsCycle` | dependency_graph.py:100-108 | a package that depends on itself is reported as a cycle |
| `Cycles.RankedIsAcyclic` | dependency_graph.py:99-115 | if a ranking strictly decreases along every recorded edge, no cycle is reported |
| `LegacyGraphModel.DependencyGraph.constructor` | graph.py:7-9 | a fresh builder has an empty graph and an empty, unused `visited` field |
| `LegacyGraphModel.DependencyGraph.AddDependency` | graph.py:11-14 | `package` becomes a key and `dependency` is added to its set, the empty name included; only the graph field changes |
| `LegacyGraphModel.DependencyGraph.BfsWithRecursion` | graph.py:16-55 | the depth and visited guards change nothing; otherwise the start is visited, the result contains the given `visited`, newly visited nodes are reachable within the remaining depth, a failed fetch leaves the start visited with no edges, and the graph gains exactly the fetched edges (empty names included) out of the newly visited nodes |
| `LegacyGraphModel.DependencyGraph.VisitFetchedDependencies` | graph.py:42-50 | the loop over the fetched dependency names of a visited node, with the same facts as the current builder's loop, unfiltered |
| `LegacyGraphModel.DependencyGraph.GetAllDependencies` | graph.py:57-58 | returns the recorded adjacency map |
| `LegacyGraphModel.DependencyGraph.HasCycles` | graph.py:60-77 | true exactly when the recorded edges contain a directed cycle, the same predicate as in dependency_graph.py |
| `NpmComparison.ExtractFromDeps` | npm_comparison.py:57-62 | walking one "dependencies" object extends the order with the first occurrences of its pre-order walk; it descends into the children even when the parent name was already present |
| `NpmComparison.ExtractInstallOrder` | npm_comparison.py:51-67 | the result has no duplicates; it contains exactly the names at any nesting depth of `npm_output["dependencies"]`; it is empty when that key is absent; and it is the first-occurrence order of the pre-order walk |
| `NpmComparison.InstallOrderProperties` | npm_comparison.py:57-65 | the install order has no duplicates, holds exactly the names occurring at some depth, and equals the position-wise keep-first filter of the pre-order walk |
| `NpmComparison.ExtendIsFirstOccurrences` | npm_comparison.py:59-60 | appending each name not yet present is the position-wise first-occurrence filter |
| `NpmComparison.ExtendMembers` | npm_comparison.py:59-60 | extending an order keeps its names and adds exactly the walked names |
| `NpmComparison.ExtendNoDuplicates` | npm_comparison.py:59-60 | extending an order without repeated names yields none |
| `NpmComparison.ExtendPrefix` | npm_comparison.py:59-60 | names already in the order keep their positions; later names are only appended |
| `NpmComparison.WalkOccurs` | npm_comparison.py:57-62 | a name is walked exactly when it is an entry name at some nesting depth |
| `NpmComparison.CompareOrders` | npm_comparison.py:69-83 | common names are the intersection, the two exclusive sets are the differences, `orderMatches` iff the sequences are equal, and the lengths are the list lengths |
| `NpmComparison.ComparisonPartition` | npm_comparison.py:73-79 | the three name sets are pairwise disjoint; common plus our-only is the set of our names, and common plus npm-only is the set of npm's names |
| `NpmComparison.MatchingOrders` | npm_comparison.py:76-82 | when the orders match, nothing is exclusive to either side and the lengths are equal |
| `NpmComparison.LengthCountsDuplicates` | npm_comparison.py:80-82 | the reported length bounds the number of distinct names and equals it iff the order has no repeated name |
| `NpmComparison.DistinctCount` | npm_comparison.py:81-82 | a list has at most as many distinct names as elements, exactly as many iff none repeats |
| `Scenarios.FixtureTraversal` | dependency_graph.py:59-94 | on A -> {B, C}, B -> {C} at depth 3, every iteration order visits exactly A, B and C, records A and B as keys (C, without dependencies, is no key) and reports no cycle |
| `Scenarios.SelfLoopTraversal` | dependency_graph.py:71-90 | on A -> {A}, the visited guard stops the recursion, the graph records the self-edge and has_cycles reports it |
| `Scenarios.ZeroDepthTraversal` | dependency_graph.py:67-69 | a fresh call with depth bound 0 visits nothing and records nothing |
| `Scenarios.DiamondTraversal` | dependency_graph.py:82-90 | on A -> {B, C}, B -> {C}, C -> {D} at depth 3 the result is {A, B, C} or {A, B, C, D}, depending on the iteration order, and nothing else |
| `Scenarios.CycleChecksAgree` | graph.py:60-77 | the two builders' has_cycles give the same answer on the same map, namely whether it has a directed cycle |
| `Scenarios.EmptyDependencyName` | dependency_graph.py:11-12 | add_dependency("p", "") leaves {p: {}} in dependency_graph.py and {p: {""}} in graph.py |
| `Scenarios.RepeatedNameStillWalked` | npm_comparison.py:58-62 | a name met a second time is not appended again, but its children are still walked: a -> b -> c followed by b -> d gives [a, b, c, d] |
| `Scenarios.LiveModeAsWritten` | dependency_graph.py:37 | as the live traversal is called, every fetch raises and is caught: only the start is visited and the graph stays empty |
| `Scenarios.LegacyLiveModeAsWritten` | graph.py:39 | the same for graph.py's traversal |

## Findings

| source | as written | input that shows it | evidently intended | confidence | as-written member | corrected member |
|---|---|---|---|---|---|---|
| dependency_graph.py:37 | `fetch_npm_metadata(start_package, "latest", repository_url)` passes three arguments, but npm_parser.py:5 takes two (`package`, `version`). The TypeError is caught at line 54, so every live fetch fails | any package and any `max_depth >= 1`: only the start is visited and no edge is recorded | fetch the package's metadata from the configured repository and walk its dependencies | not executed | `Scenarios.LiveModeAsWritten` | `DependencyGraphModel.DependencyGraph.BfsWithRecursion` with a general `fetch` |
| graph.py:39 | the same three-argument call, caught at line 52 | the same | the same | not executed | `Scenarios.LegacyLiveModeAsWritten` | `LegacyGraphModel.DependencyGraph.BfsWithRecursion` with a general `fetch` |

## Left out

- Console output: every `print` inside the traversals, `print_graph` (dependency_graph.py:117-127) and `explain_differences` (npm_comparison.py:85-117) only print.
- Fetching metadata: npm_parser.py is not part of this model. The registry request, `json.loads` and `extract_dependencies` become the `fetch` parameter. `None` is any exception raised along the way; `Some(names)` is the keys of the "dependencies" object in their order. The `repository_url` parameter only feeds that fetch, so it is dropped.
- nuget_parser.py, config_loader.py and cli.py are not part of this model. They are network and zip access, YAML loading, and argument parsing with orchestration.
- `get_actual_npm_install_order` (npm_comparison.py:12-49) is not modelled: it runs `npm install` in a subprocess in a temporary directory with a timeout. The unused field `actual_install_order` (npm_comparison.py:10) is not modelled either.
- npm JSON: only the "dependencies" keys are modelled. Other keys and dependency versions are left out. Also left out is that a JSON object cannot repeat a key: an entry sequence may repeat a name, which only makes the proved properties more general.
- Aliasing: `get_all_dependencies` returns the live dict, so a caller's later mutation would change the builder. The model returns the map as a value.
- The shared mutable `visited` set is passed by value and returned grown. A caller that keeps its own reference to the Python set sees the same final contents, so only the aliasing itself is left out.
- An exception raised mid-loop in dependency_graph.py:42-52 or graph.py:42-50 (a `RecursionError` on very deep graphs, say) is not modelled. The parent's `try` would catch it and keep that node's partial edges. The model's fetch fails only before the loop, which is where every modelled exception arises.
- BfsTestMode: Python's recursion limit (about 1000 frames) is not modelled. `bfs_test_mode` (dependency_graph.py:59-94) has no `try`, so on a fixture chain longer than that limit, with a larger `max_depth`, a `RecursionError` escapes the top-level call and leaves the graph partly built. The model always returns with the whole recorded graph.
- Cycles.HasCycles: the same recursion limit in `dfs` (dependency_graph.py:100-110, graph.py:62-72) is not modelled. On a path of more than about 1000 keys Python raises `RecursionError`; the model always answers.
- NpmComparison.ExtractInstallOrder: a "dependencies" value that is not an object cannot be expressed by `PackageInfo`. For example, `{"dependencies": null}` makes `None.items()` raise `AttributeError` (npm_comparison.py:58, 65). The model covers only well-formed npm output.
- BfsTestMode / BfsWithRecursion: the Python default `visited=None` is modelled by the caller passing `{}`; no separate optional argument exists.
- BfsTestMode: the termination measure is `maxDepth - currentDepth`, which suffices because every recursive call goes one level deeper. The unvisited reachable names are not part of it.
- DiamondTraversal: which nodes are visited under a depth bound depends on the set's iteration order. The model proves bounds (start and direct dependencies visited; everything visited lies within the depth) rather than one exact set.
