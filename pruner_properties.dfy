/**
  What pruning guarantees: one pass marks exactly what the two rules name and
  never a node without successors; the pruned graph is the input restricted
  to a subset of its nodes, no rule applies to it any more, and pruning it
  again changes nothing.  The root of a support graph always survives.
 */
module PrunerProperties {
  import opened BayesNet
  import opened SupportGraphs
  import opened Pruner
  import Builder
  import BuilderProperties

  /** One pass marks every ancestor of an evidence node (Rule 1), every dead
      end (Rule 2), and nothing else. */
  lemma PassMarksExactlyTheRules(g: Graph, evidence: set<Var>)
    ensures forall n, m :: n in g.nodes && n.v in evidence && m in Ancestors(g, n) ==> m in Marked(g, evidence)
    ensures forall m :: m in g.nodes && DeadEnd(g, evidence, m) ==> m in Marked(g, evidence)
    ensures forall m :: m in Marked(g, evidence) ==>
      && m in g.nodes
      && (|| DeadEnd(g, evidence, m)
          || exists n :: n in g.nodes && n.v in evidence && m != n && Reaches(g, m, n))
  {
    forall m | m in g.nodes && DeadEnd(g, evidence, m) ensures m in Marked(g, evidence) {
      assert MarksVia(g, evidence, m, m);
    }
  }

  /** A node that supports nothing is never marked: it is no one's ancestor,
      and Rule 2 asks for a successor. */
  lemma NoSuccessorNeverMarked(g: Graph, evidence: set<Var>, n: Node)
    requires Successors(g, n) == {}
    ensures n !in Marked(g, evidence)
  {
    if n in Marked(g, evidence) {
      var k :| k in g.nodes && MarksVia(g, evidence, k, n);
      if k.v in evidence && n in Ancestors(g, k) {
        ReachesHasSuccessor(g, n, k);
      }
      assert false;
    }
  }

  /** Removing nodes keeps every remaining edge between remaining nodes. */
  lemma RemoveNodesWellFormed(g: Graph, doomed: set<Node>)
    requires g.WellFormed()
    ensures RemoveNodes(g, doomed).WellFormed()
  {
  }

  /** The pruned graph keeps a subset of the nodes and exactly the input's
      edges among them. */
  lemma {:induction false} PruneIsInducedSubgraph(g: Graph, evidence: set<Var>)
    requires g.WellFormed()
    ensures Prune(g, evidence).nodes <= g.nodes
    ensures Prune(g, evidence).WellFormed()
    ensures forall e :: e in Prune(g, evidence).edges <==>
      e in g.edges && e.0 in Prune(g, evidence).nodes && e.1 in Prune(g, evidence).nodes
    decreases g.nodes
  {
    var doomed := Marked(g, evidence);
    if doomed != {} {
      var rest := RemoveNodes(g, doomed);
      RemoveNodesWellFormed(g, doomed);
      PruneIsInducedSubgraph(rest, evidence);
    }
  }

  /** The loop stops only when a pass marks nothing, so no rule applies to
      the pruned graph. */
  lemma {:induction false} PruneIsFixedPoint(g: Graph, evidence: set<Var>)
    ensures Marked(Prune(g, evidence), evidence) == {}
    decreases g.nodes
  {
    var doomed := Marked(g, evidence);
    if doomed != {} {
      PruneIsFixedPoint(RemoveNodes(g, doomed), evidence);
    }
  }

  /** In the pruned graph no node is an ancestor of an evidence node, and
      every non-evidence node without a supporter supports nothing. */
  lemma PrunedGraphObeysRules(g: Graph, evidence: set<Var>)
    ensures forall n, m ::
              n in Prune(g, evidence).nodes && n.v in evidence && m in Prune(g, evidence).nodes && m != n
              ==> !Reaches(Prune(g, evidence), m, n)
    ensures forall m :: m in Prune(g, evidence).nodes ==> !DeadEnd(Prune(g, evidence), evidence, m)
  {
    var p := Prune(g, evidence);
    PruneIsFixedPoint(g, evidence);
    PassMarksExactlyTheRules(p, evidence);
  }

  /** Pruning twice with the same evidence is pruning once. */
  lemma {:induction false} PruneIdempotent(g: Graph, evidence: set<Var>)
    ensures Prune(Prune(g, evidence), evidence) == Prune(g, evidence)
  {
    PruneIsFixedPoint(g, evidence);
  }

  /** A node that supports nothing survives every pass. */
  lemma {:induction false} NoSuccessorSurvives(g: Graph, evidence: set<Var>, n: Node)
    requires n in g.nodes && Successors(g, n) == {}
    ensures n in Prune(g, evidence).nodes
    decreases g.nodes
  {
    var doomed := Marked(g, evidence);
    NoSuccessorNeverMarked(g, evidence, n);
    if doomed != {} {
      var rest := RemoveNodes(g, doomed);
      assert Successors(rest, n) <= Successors(g, n);
      NoSuccessorSurvives(rest, evidence, n);
    }
  }

  /** Whatever the evidence, the root (v, {v}) of a support graph survives pruning. */
  lemma RootSurvivesPruning(net: Network, v: Var, g: Graph, evidence: set<Var>)
    requires Builder.IsSupportGraph(net, v, g)
    ensures Builder.Root(v) in Prune(g, evidence).nodes
  {
    BuilderProperties.RootIsOnlySink(net, v, g);
    NoSuccessorSurvives(g, evidence, Builder.Root(v));
  }

  /** Removing nodes cannot create a cycle. */
  lemma RemoveNodesAcyclic(g: Graph, doomed: set<Node>)
    requires AcyclicGraph(g)
    ensures AcyclicGraph(RemoveNodes(g, doomed))
  {
    var rest := RemoveNodes(g, doomed);
    forall n ensures !Reaches(rest, n, n) {
      if p :| IsPath(rest, p) && |p| >= 2 && p[0] == n && p[|p| - 1] == n {
        assert !Reaches(g, n, n);
        assert IsPath(g, p);
        assert false;
      }
    }
  }

  /** On an acyclic graph the supporters of a marked node are marked too:
      Rule 1 extends to them through the edge, and Rule 2 only marks nodes
      without supporters. */
  lemma MarkedReachesSupporters(g: Graph, evidence: set<Var>, x: Node, y: Node)
    requires AcyclicGraph(g) && x in g.nodes && (x, y) in g.edges && y in Marked(g, evidence)
    ensures x in Marked(g, evidence)
  {
    var n :| n in g.nodes && MarksVia(g, evidence, n, y);
    if n.v in evidence && y in Ancestors(g, n) {
      ReachesStep(g, x, y, n);
      if x == n {
        assert false;
      }
      assert MarksVia(g, evidence, n, x);
    } else {
      assert false;
    }
  }

  /** On an acyclic graph one pass never strips a surviving node of all its
      successors: a successor marked by Rule 1 makes the node an ancestor of
      the same evidence node, and one marked by Rule 2 has no predecessor. */
  lemma PassKeepsSinks(g: Graph, evidence: set<Var>, r: Node)
    requires g.WellFormed() && AcyclicGraph(g)
    requires forall x :: x in g.nodes && x != r ==> Successors(g, x) != {}
    ensures forall x :: x in RemoveNodes(g, Marked(g, evidence)).nodes && x != r ==>
      Successors(RemoveNodes(g, Marked(g, evidence)), x) != {}
  {
    var doomed := Marked(g, evidence);
    var rest := RemoveNodes(g, doomed);
    forall x | x in rest.nodes && x != r ensures Successors(rest, x) != {} {
      var y :| y in Successors(g, x);
      if y in doomed {
        MarkedReachesSupporters(g, evidence, x, y);
        assert false;
      }
      assert y in Successors(rest, x);
    }
  }

  /** Pruning an acyclic graph in which only `r` lacks a successor keeps it so. */
  lemma {:induction false} PruneKeepsSinks(g: Graph, evidence: set<Var>, r: Node)
    requires g.WellFormed() && AcyclicGraph(g)
    requires forall x :: x in g.nodes && x != r ==> Successors(g, x) != {}
    ensures forall x :: x in Prune(g, evidence).nodes && x != r ==> Successors(Prune(g, evidence), x) != {}
    decreases g.nodes
  {
    var doomed := Marked(g, evidence);
    if doomed != {} {
      PassKeepsSinks(g, evidence, r);
      RemoveNodesWellFormed(g, doomed);
      RemoveNodesAcyclic(g, doomed);
      PruneKeepsSinks(RemoveNodes(g, doomed), evidence, r);
    }
  }

  /** In a pruned support graph the root is still the only node without a
      successor, so Rule 2's exemption for nodes without successors protects
      the root and nothing else; and every node other than the root and the
      evidence nodes still has a supporter. */
  lemma PrunedSupportGraphShape(net: Network, v: Var, g: Graph, evidence: set<Var>)
    requires Builder.IsSupportGraph(net, v, g)
    ensures Builder.Root(v) in Prune(g, evidence).nodes
    ensures Successors(Prune(g, evidence), Builder.Root(v)) == {}
    ensures forall x :: x in Prune(g, evidence).nodes && x != Builder.Root(v) ==> Successors(Prune(g, evidence), x) != {}
    ensures forall x :: x in Prune(g, evidence).nodes && x != Builder.Root(v) && x.v !in evidence ==>
      Predecessors(Prune(g, evidence), x) != {}
  {
    var root := Builder.Root(v);
    BuilderProperties.RootIsOnlySink(net, v, g);
    RootSurvivesPruning(net, v, g, evidence);
    forall n ensures !Reaches(g, n, n) {
      if p :| IsPath(g, p) && |p| >= 2 && p[0] == n && p[|p| - 1] == n {
        BuilderProperties.SupportGraphAcyclic(net, v, g, p);
      }
    }
    PruneIsInducedSubgraph(g, evidence);
    assert Successors(Prune(g, evidence), root) <= Successors(g, root);
    PruneKeepsSinks(g, evidence, root);
    PrunedGraphObeysRules(g, evidence);
  }
}
