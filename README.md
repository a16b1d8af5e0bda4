# Support graphs for Bayesian networks, in Dafny

This project models `src/support_graph.py`. That file builds a *support
graph* for one variable of interest in a Bayesian network and then prunes the graph with a set of evidence variables.

- **Network** (`bayes_net.dfy`, module `BayesNet`). A network is a set of
  variables plus a parent-to-child edge relation. The core only reads it.
  `GetMarkovBlanket` is the source's loop that collects parents, children and
  the children's other parents, then drops the variable itself.
- **Support graphs** (`support_graphs.dfy`, module `SupportGraphs`).
  - A node is the pair (variable, forbidden set). Two nodes are equal only
    when both parts are equal.
  - `Graph` is the value that the specifications talk about.
  - The class `SupportGraph` is the mutable graph object that the builder and
    the pruner update in place. It has sets of nodes and edges, and provides
    add-node, add-edge, remove-nodes and copy.
  - Walks, reachability and ancestors are defined here.
- **Builder** (`builder.dfy`, module `Builder`).
  - `CreateSupportGraph`, `Expand`, `AddSpouseSupports` and `AddSupport` build the graph from the
    root (v, {v}).
  - `Supports(net, s, n)` states exactly which supporters expanding `n`
    requests. It applies the parent, child and spouse rules in that priority
    order.
  - `IsSupportGraph` describes the finished graph without referring to any
    expansion order:
    - the root is present;
    - every edge is a support request of its target;
    - every node except the root has an outgoing edge;
    - every request of every node is answered.
- **Builder properties** (`builder_properties.dfy`). Forbidden sets grow
  strictly along edges and always contain the variable of interest. The root
  is the only node without an outgoing edge. The graph is acyclic. A variable
  has exactly one support graph.
- **Pruner** (`pruner.dfy`, module `Pruner`).
  - `Prune` is the specification: passes of batch removal, repeated until a
    pass marks nothing.
  - `PruneSupportGraph` is the source's `while True` loop on a copy of the
    input.
  - `NodesToRemove` is one pass over the nodes.
  - `GetAncestors` is a work-list search against the edge direction. It
    stands in for the graph library's ancestor query.
- **Pruner properties** (`pruner_properties.dfy`).
  - A pass marks exactly what Rules 1 and 2 name.
  - The result is the input graph restricted to a subset of its nodes.
  - The result is a fixed point, so pruning is idempotent.
  - Nodes without successors survive pruning.
  - In a pruned support graph the root is still the only node without a
    successor.
- **Scenarios** (`scenarios.dfy`). These are the single-variable network and
  the crime network of the file's demonstration, with the support graph and
  the pruned graph derived by hand from the rules.

The mutual recursion of `_expand` and `_add_support` becomes a work list. Each
node is expanded exactly once, when it is inserted, as in the source. Its
expansion depends only on the node. `BuilderProperties.SupportGraphUnique`
shows that only one graph satisfies `IsSupportGraph`, so the order in which
nodes are expanded does not change the result. The `f_sets` dictionary is not
modelled. Line 71 always resets it to the node's own forbidden set, so the
model reads that set directly.

## Model

| member | source | states |
|---|---|---|
| `BayesNet.GetMarkovBlanket` | src/support_graph.py:4-29 | `w` is in the result exactly when `w` is a parent, a child or a parent of a child of the variable, and `w` is not the variable itself |
| `BayesNet.ParentChildExclusive` | src/support_graph.py:79-91 | in an acyclic network no variable is its own parent, and no blanket variable is both a parent and a child, so the parent/child/spouse classification is a partition |
| `Builder.SupportGrows` | src/support_graph.py:76-102 | a requested supporter's forbidden set contains the supported node's forbidden set plus the supporter's variable, and that variable was not forbidden before, so the growth is strict |
| `Builder.SpouseCheckHolds` | src/support_graph.py:94-102 | a blanket variable that is neither a parent nor a child shares at least one child with the variable, and has no edge to or from it, so the immorality check always passes |
| `Builder.AddSupport` | src/support_graph.py:105-121 | the supporter node and the supporter-to-supported edge each end up in the graph exactly once; the node is scheduled for expansion only when it was not already present; the work-list invariant is kept |
| `Builder.AddSpouseSupports` | src/support_graph.py:94-102 | for a blanket variable that is neither a parent nor a child and is not forbidden, every spouse request (one per shared child, with F + {w, k}) is in the graph with its edge to the expanded node; everything added is such a supporter or such an edge; the work-list invariant is kept |
| `Builder.Expand` | src/support_graph.py:65-102 | after expansion the node is closed: every supporter requested by the parent, child and spouse rules (one request per common child) is in the graph with its edge to the expanded node; every added node is such a supporter and every added edge runs from one into the expanded node; nothing is lost and the work-list invariant is kept |
| `Builder.CreateSupportGraph` | src/support_graph.py:31-63 | the result is a fresh graph satisfying `IsSupportGraph`: it holds the root (v, {v}), every edge is a support request, every non-root node has an outgoing edge, and every node is fully expanded |
| `BuilderProperties.EdgeForbiddenGrowth` | src/support_graph.py:76-102 | for every edge supporter -> supported, the supporter's forbidden set contains the supported node's forbidden set and the supporter's variable, which the supported node's forbidden set lacks |
| `BuilderProperties.ForbiddenContainsRoot` | src/support_graph.py:53-101 | every forbidden set in the graph contains the variable of interest and the node's own variable |
| `BuilderProperties.RootIsOnlySink` | src/support_graph.py:53-58 | the root has no outgoing edge, and it is the only node of the built graph without one |
| `BuilderProperties.SupportGraphAcyclic` | src/support_graph.py:110-121 | forbidden sets strictly shrink along every walk of one edge or more, so no walk returns to its start |
| `BuilderProperties.NodeInEverySupportGraph` | src/support_graph.py:110-118 | every node of one support graph of a variable is a node of every other support graph of that variable |
| `BuilderProperties.SupportGraphUnique` | src/support_graph.py:110-121 | two graphs that both satisfy `IsSupportGraph` for the same network and variable are equal, so expansion order does not matter |
| `SupportGraphs.SupportGraph.constructor` | src/support_graph.py:45 | a new graph object has no nodes and no edges |
| `SupportGraphs.SupportGraph.AddNode` | src/support_graph.py:57 | the node set gains the given node (adding one already present changes nothing); the edges are unchanged |
| `SupportGraphs.SupportGraph.AddEdge` | src/support_graph.py:116 | the edge set gains the given edge and the node set gains both of its ends; nothing else changes |
| `SupportGraphs.SupportGraph.Copy` | src/support_graph.py:132 | the copy is a new object with the same nodes and edges |
| `SupportGraphs.SupportGraph.RemoveNodesFrom` | src/support_graph.py:157 | the marked nodes are removed along with every edge that touches one of them; everything else stays |
| `Pruner.GetAncestors` | src/support_graph.py:142 | the result is exactly the set of other nodes that have a walk to the target |
| `Pruner.NodesToRemove` | src/support_graph.py:135-153 | one pass marks exactly `Marked`: the ancestors of evidence nodes (Rule 1) and the non-evidence nodes with no predecessor and at least one successor (Rule 2), judged against the graph as it stands |
| `Pruner.PruneSupportGraph` | src/support_graph.py:124-159 | returns a fresh graph equal to `Prune(input, evidence)` and leaves the input graph unchanged |
| `PrunerProperties.PassMarksExactlyTheRules` | src/support_graph.py:139-153 | every ancestor of an evidence node is marked; every dead end is marked; every marked node is one of these two |
| `PrunerProperties.NoSuccessorNeverMarked` | src/support_graph.py:139-152 | a node with no successors is marked by neither rule |
| `PrunerProperties.MarkedReachesSupporters` | src/support_graph.py:139-152 | in an acyclic graph, every supporter of a marked node is also marked |
| `PrunerProperties.RemoveNodesAcyclic` | src/support_graph.py:157 | removing nodes does not create a cycle |
| `PrunerProperties.PruneIsInducedSubgraph` | src/support_graph.py:132-157 | the pruned graph's nodes are a subset of the input's nodes, and its edges are exactly the input's edges among those nodes |
| `PrunerProperties.PruneIsFixedPoint` | src/support_graph.py:154-155 | a pass over the pruned graph marks nothing |
| `PrunerProperties.PrunedGraphObeysRules` | src/support_graph.py:134-157 | in the pruned graph no node is an ancestor of an evidence node, and no non-evidence node lacks a predecessor while having a successor |
| `PrunerProperties.PruneIdempotent` | src/support_graph.py:134-159 | pruning twice with the same evidence gives the same result as pruning once |
| `PrunerProperties.NoSuccessorSurvives` | src/support_graph.py:149-152 | a node with no successors is still present after pruning |
| `PrunerProperties.RootSurvivesPruning` | src/support_graph.py:149-152 | for any evidence set, the root of a support graph survives pruning |
| `PrunerProperties.PassKeepsSinks` | src/support_graph.py:135-157 | on an acyclic graph, one pass never takes the last successor away from a surviving node |
| `PrunerProperties.PruneKeepsSinks` | src/support_graph.py:134-157 | if an acyclic graph has a single node without successors, pruning keeps it that way |
| `PrunerProperties.PrunedSupportGraphShape` | src/support_graph.py:145-153 | in a pruned support graph the root survives with no successors; every other node keeps a successor; every node other than the root and the evidence nodes keeps a supporter |
| `Scenarios.SingleVariableGraph` | src/support_graph.py:53-61 | a network with one variable and no edges yields only the root node and no edges |
| `Scenarios.CrimeSupportGraphIsSupportGraph` | src/support_graph.py:65-121 | for Crime in the demonstration network, the hand-derived graph satisfies the support-graph rules |
| `Scenarios.CrimeGraph` | src/support_graph.py:165-176 | the support graph of Crime is exactly the hand-derived one: (Crime,{Crime}); (Motive,{Crime,Motive}) as a parent; (DNA_match,{Crime,DNA_match,Twin}) as a child; (Twin,{Crime,Twin,DNA_match}) as a spouse; (Psych_report,{Crime,Motive,Psych_report}) supporting Motive |
| `Scenarios.CrimePruning` | src/support_graph.py:124-159 | pruning that graph with DNA_match as evidence removes Psych_report and Twin, then Motive, leaving DNA_match -> Crime |

## Left out

- The demonstration block at src/support_graph.py:161-215 is not modelled. It builds sample networks and prints results. Its first network appears only as the `Scenarios` fixture.
- The display attributes `label` and `f_set` are not modelled. The source stores them as strings. A node's label is its first component, which is how the pruner reads it.
- The graph library is modelled by sets, not by its internals. Its iteration order over sets and blankets is modelled as an arbitrary choice. Nothing proved depends on that order.
- The source's recursion is replaced by a work list. The order in which nodes are expanded (and call-stack depth) is therefore not modelled. The final graph is the same for every order (`BuilderProperties.SupportGraphUnique`).
- The `f_sets` dictionary is not modelled. Each node's own forbidden set stands in for it.
- The core never checks that the network is acyclic. `Acyclic` is a precondition of `Builder.CreateSupportGraph` and is not checked either. None of the builder's proofs needs it; termination comes from forbidden sets growing.
- A variable that is not in the network is not modelled as an error. The graph library raises for it, so `GetMarkovBlanket` and `CreateSupportGraph` require membership.
