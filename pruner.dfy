/**
  Evidence-driven pruning of a support graph.  Each pass marks, against the
  graph as it stands at the start of the pass,
    - Rule 1: every ancestor of a node whose variable is evidence, and
    - Rule 2: every node whose variable is not evidence, that has no
      predecessor and that has at least one successor;
  then removes all marked nodes at once.  Passes repeat until one marks
  nothing.  The input graph is copied first and never changed.
 */
module Pruner {
  import opened BayesNet
  import opened SupportGraphs

  /** Rule 2: a non-evidence node left without supporters that still supports something. */
  predicate DeadEnd(g: Graph, evidence: set<Var>, n: Node) {
    n.v !in evidence && |Predecessors(g, n)| == 0 && |Successors(g, n)| > 0
  }

  /** Looking at node `n`, the pass marks `m`: `m` is an ancestor of the
      evidence node `n` (Rule 1), or `m` is `n` and a dead end (Rule 2). */
  ghost predicate MarksVia(g: Graph, evidence: set<Var>, n: Node, m: Node) {
    || (n.v in evidence && m in Ancestors(g, n))
    || (m == n && DeadEnd(g, evidence, n))
  }

  /** The nodes one pass marks for removal. */
  ghost function Marked(g: Graph, evidence: set<Var>): set<Node> {
    set m | m in g.nodes && exists n :: n in g.nodes && MarksVia(g, evidence, n, m)
  }

  /** The pruned graph: passes of batch removal until a pass marks nothing. */
  ghost function Prune(g: Graph, evidence: set<Var>): Graph
    decreases g.nodes
  {
    var doomed := Marked(g, evidence);
    if doomed == {} then g else Prune(RemoveNodes(g, doomed), evidence)
  }

  /**
    The ancestors of `target`, found by a work-list search against the edge
    direction from `target`; `target` itself is visited first and never
    reported.
   */
  method GetAncestors(g: Graph, target: Node) returns (anc: set<Node>)
    requires g.WellFormed()
    ensures anc == Ancestors(g, target)
  {
    anc := {};
    var frontier := {target};
    while frontier != {}
      invariant anc <= g.nodes && target !in anc
      invariant frontier <= anc + {target}
      invariant forall m :: m in anc ==> Reaches(g, m, target)
      invariant forall x, y :: y in anc + {target} && y !in frontier && (x, y) in g.edges ==> x in anc + {target}
      decreases g.nodes - anc, frontier
    {
      var x :| x in frontier;
      frontier := frontier - {x};
      var found := Predecessors(g, x) - anc - {target};
      forall p | p in found ensures Reaches(g, p, target) {
        ReachesStep(g, p, x, target);
      }
      anc := anc + found;
      frontier := frontier + found;
    }
    forall m | m in Ancestors(g, target) ensures m in anc {
      var p :| IsPath(g, p) && |p| >= 2 && p[0] == m && p[|p| - 1] == target;
      PathStartInClosedSet(g, anc + {target}, p);
    }
  }

  /**
    One pass over the nodes: collects the ancestors of every evidence node and
    every dead end, without changing the graph.
   */
  method NodesToRemove(g: Graph, evidence: set<Var>) returns (marked: set<Node>)
    requires g.WellFormed()
    ensures marked == Marked(g, evidence)
  {
    marked := {};
    var todo := g.nodes;
    while todo != {}
      invariant todo <= g.nodes
      invariant forall m :: m in marked <==> exists n :: n in g.nodes && n !in todo && MarksVia(g, evidence, n, m)
      decreases todo
    {
      var node :| node in todo;
      todo := todo - {node};
      if node.v in evidence {
        var ancestors := GetAncestors(g, node);
        marked := marked + ancestors;
      }
      var parents := Predecessors(g, node);
      if node.v !in evidence && |parents| == 0 {
        if |Successors(g, node)| > 0 {
          marked := marked + {node};
        }
      }
    }
  }

  /**
    `prune_support_graph`: prunes a copy of `sg` with the given evidence
    variables and returns it; `sg` itself is left as it was.
   */
  method PruneSupportGraph(sg: SupportGraph, evidence: set<Var>) returns (pruned: SupportGraph)
    requires sg.Value().WellFormed()
    ensures fresh(pruned)
    ensures sg.Value() == old(sg.Value())
    ensures pruned.Value() == Prune(sg.Value(), evidence)
  {
    pruned := sg.Copy();
    while true
      invariant fresh(pruned)
      invariant pruned.Value().WellFormed()
      invariant Prune(pruned.Value(), evidence) == Prune(sg.Value(), evidence)
      decreases pruned.nodes
    {
      var toRemove := NodesToRemove(pruned.Value(), evidence);
      if toRemove == {} {
        break;
      }
      pruned.RemoveNodesFrom(toRemove);
    }
  }
}
