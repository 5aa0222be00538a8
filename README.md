# DAG utilities, modelled and verified in Dafny

This project models the graph-ordering core of `DAG_utils.py`. A graph is a
dictionary from each node to the set of nodes it depends on: an edge
`a -> b` (`b in g[a]`) means "a depends on b", so `b` has to come before `a`
in a topological order. The core has five parts:

- `edge_dict_to_node_set` collects every node that appears as a key or
  inside a value set.
- `invert_edge_dict` builds the reverse-dependency map (`a in inv[b]` when
  `b in g[a]`).
- `topological_sort` is a frontier/counting sort. It starts from the nodes
  with no dependencies and appends a popped node once its count of placed
  dependencies reaches the size of its dependency set. Otherwise it skips
  the node. It returns `None` when some node was never placed.
- `is_graph_acylic_DFS` runs a recursive depth-first search from every node.
  It keeps a shared set of the nodes on the active path and reports a cycle
  when the search reaches a node already on that path.
- `is_graph_acyclic_toplogical` decides acyclicity as "the sort succeeds".

Files:

- `wrappers.dfy`: the `Option` result of the sort.
- `graphs.dfy` (module `Graphs`): the specification vocabulary and the facts
  proved about it. It defines:
  - the total lookup `Deps`, which plays the role of the source's
    `defaultdict(set)` wrapper;
  - the node set `Nodes`;
  - walks, cycles and `HasCycle`;
  - valid orders, `ValidOrder`;
  - the search's failure notion `Revisits`.
- `dag_utils.dfy` (module `DagUtils`): the operations, written as imperative
  methods with loops, as the source writes them. The recursive helper with
  its captured dictionary and shared mutable set is a class, `PathSearch`:
  - the field `g` is the captured dictionary;
  - the field `seen` is `set_seen_so_far`;
  - the method `Visit` is `is_graph_acylic_helper`.

  Each method is proved against the specification.
- `examples.dfy` (module `Examples`): the fixed graphs of `test.py`, stated
  as facts about the specification. Together with the method contracts they
  determine what each call returns on those inputs.

The main results:

- `TopologicalSort` returns `Some(order)` with a valid order (each node
  exactly once, every dependency before its dependant) or `None`. It returns
  `None` exactly when the graph has a cycle.
- Each of `IsAcyclicDFS` and `IsAcyclicTopological` returns true exactly
  when the graph has no cycle, so the two agree on every graph
  (`CheckersAgree`, the property that the randomized test in `test.py`
  samples).

The iterations over Python sets and dictionaries are modelled as loops that
pick an arbitrary remaining element with `:|`. The proofs therefore hold for
every iteration order.

## Model

| member | source | states |
|---|---|---|
| DagUtils.EdgeDictToNodeSet | DAG_utils.py:170-183 | the result holds exactly the keys and the members of the value sets (both directions), which is the node set `Nodes(g)` |
| DagUtils.InvertEdgeDict | DAG_utils.py:151-167 | `a` is in the inverted set of `b` if and only if `b` is a dependency of `a`; a key is created only with its first dependant, so no key maps to the empty set |
| DagUtils.TerminalNodes | DAG_utils.py:112-118 | the result holds exactly the nodes whose dependency set is empty |
| DagUtils.InitialMarks | DAG_utils.py:120-125 | both maps have exactly the nodes as keys; every node is marked not added, with zero dependencies met |
| DagUtils.PushDependants | DAG_utils.py:136-139 | the dependants join the frontier; each dependant's met count goes up by one and every other count is unchanged |
| DagUtils.TopologicalSort | DAG_utils.py:64-148 | a `Some` result is a valid topological order of all nodes (no repeats, all nodes, dependencies first); the result is `None` if and only if the graph has a cycle |
| DagUtils.SortingStarts | DAG_utils.py:122-128 | the initial marks, zero counts and terminal-node frontier satisfy the loop invariant with an empty ordering |
| DagUtils.ReadyIffCountReached | DAG_utils.py:130-133 | a popped node is unplaced; its met count is below the size of its dependency set if and only if some dependency is still unplaced |
| DagUtils.SkippingKeepsSorting | DAG_utils.py:131-133 | dropping a popped node that still has an unplaced dependency keeps the invariant |
| DagUtils.PlacingKeepsSorting | DAG_utils.py:134-141 | appending a ready node, pushing its dependants and marking it added keeps the invariant; the node was unplaced before |
| DagUtils.DependantsUnplaced | DAG_utils.py:137-138 | the nodes that depend on a node just placed are nodes of the graph and are not yet placed |
| DagUtils.PlacingKeepsPrefix | DAG_utils.py:135 | appending an unplaced node whose dependencies are placed keeps the ordering duplicate-free and dependencies-first |
| DagUtils.PlacingKeepsFrontier | DAG_utils.py:136-139 | after the push, the frontier again holds only unplaced nodes and every unplaced node whose dependencies are all placed |
| DagUtils.PlacingKeepsMarks | DAG_utils.py:139-141 | after the push and the mark, each node is marked added exactly when it is placed, and its count equals its number of placed dependencies |
| DagUtils.SortingEnds | DAG_utils.py:143-148 | with an empty frontier, all nodes marked added means the ordering is valid, and any node left unmarked means the graph has a cycle |
| DagUtils.PathSearch.constructor | DAG_utils.py:47 | a search over the given graph starts with an empty path set |
| DagUtils.PathSearch.Visit | DAG_utils.py:27-43 | returns false if and only if some walk from the node reaches a node on the current path or repeats itself; on true, the path set is restored to its value on entry; on false, it only grows |
| DagUtils.IsAcyclicDFS | DAG_utils.py:4-47 | true if and only if the graph has no cycle |
| DagUtils.IsAcyclicTopological | DAG_utils.py:50-61 | true if and only if the graph has no cycle |
| DagUtils.CheckersAgree | test.py:51-61 | the depth-first check and the sort-based check return the same answer on every graph |
| Graphs.OrderForbidsCycle | DAG_utils.py:66-67 | a graph that has a valid topological order has no cycle |
| Graphs.ExtendToCycle | DAG_utils.py:96-99 | a walk inside the unplaced nodes can be extended until it closes into a cycle when every unplaced node has an unplaced dependency |
| Graphs.StuckImpliesCycle | DAG_utils.py:143-145 | if some node is unplaced and no unplaced node has all its dependencies placed, the graph has a cycle |
| Graphs.CountReachesAll | DAG_utils.py:132 | a node's count of placed dependencies is at most the size of its dependency set, and equals it exactly when all of them are placed |
| Graphs.CountAfterPlacing | DAG_utils.py:139 | placing one more node raises a node's count of placed dependencies by one exactly when that node is one of its dependencies |
| Graphs.RevisitsSeen | DAG_utils.py:36-37 | a node already on the path is itself a revisit |
| Graphs.RevisitsStep | DAG_utils.py:38-41 | a revisit found below a dependency, with the node added to the path, is a revisit from the node |
| Graphs.NoRevisitsStep | DAG_utils.py:36-43 | a node that is off the path and whose dependencies all finish without a revisit does not revisit |
| Graphs.CycleIffRevisit | DAG_utils.py:45-47 | the graph has a cycle if and only if the search from some node, with an empty path, finds a revisit |
| Examples.EmptyGraph | test.py:20 | the empty graph is acyclic, and the empty sequence is its only valid order |
| Examples.EdgeOrderIsUnique | test.py:21 | for `{0: {1}}`, the only valid order is `[1, 0]` |
| Examples.ChainOrderIsUnique | test.py:22 | for `{0: {1}, 1: {2}}`, the only valid order is `[2, 1, 0]` |
| Examples.ForkOrders | test.py:23-24 | for `{0: {1}, 1: {2, 3}}`, the valid orders are exactly `[3, 2, 1, 0]` and `[2, 3, 1, 0]` |
| Examples.MergeOrders | test.py:25-26 | for `{0: {1}, 1: {2, 3}, 2: {4}, 3: {4}}`, the valid orders are exactly `[4, 3, 2, 1, 0]` and `[4, 2, 3, 1, 0]` |
| Examples.TestAcyclicGraphsAreAcyclic | test.py:31-39 | the non-empty acyclic graphs of the tests have no cycle |
| Graphs.RankForbidsCycle | test.py:34-36 | a graph has no cycle when some integer rank strictly drops along every edge; this is how the join and disjoint test graphs are shown acyclic |
| Examples.SelfLoopIsCyclic | test.py:41 | a self-loop is a cycle |
| Examples.TestCyclesAreCyclic | test.py:42-49 | the other cyclic graphs of the tests each have a cycle |

## Left out

- DagUtils.PathSearch.Visit: on a false return the model only states that
  the path set has grown. The source leaves behind exactly the nodes of the
  path that was being explored. No caller reads the set after a failure,
  because each start node gets a fresh set.
- The `defaultdict(set)` wrapping is modelled as the total lookup `Deps`. A
  lookup of a missing key in the source also inserts that key with an empty
  set. That insertion changes neither the node set nor any result, so it is
  not modelled.
- The set and dictionary iteration order of Python is not modelled. Each
  loop picks an arbitrary remaining element, so the results are proved for
  every order. The concrete sequence that `topological_sort` returns on a
  particular Python run is therefore not predicted. `Examples` states which
  sequences are possible.
- The three small loops inside `topological_sort` (terminal nodes, initial
  marks, pushing dependants) are separate methods that the sort calls. The
  order of their effects is the same as in the source.
- The time-complexity claims and the informal inductive proof in the
  docstrings are not modelled. The proof is replaced by the verified loop
  invariant `Sorting` and the lemmas about it.
- The Python recursion-depth limit (a `RecursionError` on deep graphs) is
  not modelled. `Visit` recurses without bound.
- Node types are generic, with equality. Python's requirement that nodes be
  hashable corresponds to Dafny's equality types. Integers are unbounded in
  both languages, so there is no overflow to model.
- The random-graph generation in `test.py` (NumPy) is not modelled. Its
  assertion, that the two checks agree, is proved for all graphs in
  `CheckersAgree`.
