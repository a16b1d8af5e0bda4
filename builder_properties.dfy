/**
  What every support graph satisfies: forbidden sets grow strictly along
  edges, every forbidden set contains the variable of interest, the root is
  the one node without an outgoing edge, the graph is acyclic, and the graph
  of a variable is unique, whatever order the nodes were expanded in.
 */
module BuilderProperties {
  import opened BayesNet
  import opened SupportGraphs
  import opened Builder

  /** Along every edge supporter -> supported, the supporter's forbidden set
      holds the supported node's and the supporter's variable, which the
      supported node's did not. */
  lemma EdgeForbiddenGrowth(net: Network, v: Var, g: Graph, s: Node, n: Node)
    requires IsSupportGraph(net, v, g) && (s, n) in g.edges
    ensures n.forbidden + {s.v} <= s.forbidden
    ensures s.v !in n.forbidden
  {
    SupportGrows(net, s, n);
  }

  /** Every forbidden set of the graph contains the variable of interest and
      the node's own variable. */
  lemma {:induction false} ForbiddenContainsRoot(net: Network, v: Var, g: Graph, n: Node)
    requires IsSupportGraph(net, v, g) && n in g.nodes
    ensures v in n.forbidden && n.v in n.forbidden
    decreases n.forbidden
  {
    if n != Root(v) {
      var m :| (n, m) in g.edges;
      SupportGrows(net, n, m);
      ForbiddenContainsRoot(net, v, g, m);
    }
  }

  /** The root (v, {v}) is in the graph and has no outgoing edge; every other
      node has one. */
  lemma RootIsOnlySink(net: Network, v: Var, g: Graph)
    requires IsSupportGraph(net, v, g)
    ensures Root(v) in g.nodes && Successors(g, Root(v)) == {}
    ensures forall n :: n in g.nodes && Successors(g, n) == {} ==> n == Root(v)
  {
    if m :| m in Successors(g, Root(v)) {
      SupportGrows(net, Root(v), m);
      ForbiddenContainsRoot(net, v, g, m);
      assert false;
    }
    forall n | n in g.nodes && n != Root(v) ensures Successors(g, n) != {} {
      var m :| (n, m) in g.edges;
      assert m in Successors(g, n);
    }
  }

  /** Forbidden sets strictly shrink along every walk, so no walk returns to
      its start: the support graph is acyclic. */
  lemma {:induction false} SupportGraphAcyclic(net: Network, v: Var, g: Graph, p: seq<Node>)
    requires IsSupportGraph(net, v, g) && IsPath(g, p) && |p| >= 2
    ensures p[|p| - 1].forbidden < p[0].forbidden
    ensures p[0] != p[|p| - 1]
  {
    SupportGrows(net, p[0], p[1]);
    if |p| > 2 {
      var q := p[1..];
      assert IsPath(g, q);
      SupportGraphAcyclic(net, v, g, q);
    }
  }

  /** Each node of one support graph of `v` is a node of any other: follow
      outgoing edges down to the root, and each step back up is a support
      request the other graph must also have answered. */
  lemma {:induction false} NodeInEverySupportGraph(net: Network, v: Var, g1: Graph, g2: Graph, n: Node)
    requires IsSupportGraph(net, v, g1) && IsSupportGraph(net, v, g2) && n in g1.nodes
    ensures n in g2.nodes
    decreases n.forbidden
  {
    if n != Root(v) {
      var m :| (n, m) in g1.edges;
      SupportGrows(net, n, m);
      NodeInEverySupportGraph(net, v, g1, g2, m);
      assert Closed(net, g2, m);
    }
  }

  /** A variable has exactly one support graph: the builder's result does not
      depend on the order in which nodes are expanded. */
  lemma SupportGraphUnique(net: Network, v: Var, g1: Graph, g2: Graph)
    requires IsSupportGraph(net, v, g1) && IsSupportGraph(net, v, g2)
    ensures g1 == g2
  {
    forall n | n in g1.nodes ensures n in g2.nodes {
      NodeInEverySupportGraph(net, v, g1, g2, n);
    }
    forall n | n in g2.nodes ensures n in g1.nodes {
      NodeInEverySupportGraph(net, v, g2, g1, n);
    }
    assert g1.nodes == g2.nodes;
    forall e | e in g1.edges ensures e in g2.edges {
      assert Closed(net, g2, e.1);
    }
    forall e | e in g2.edges ensures e in g1.edges {
      assert Closed(net, g1, e.1);
    }
    assert g1.edges == g2.edges;
  }
}
