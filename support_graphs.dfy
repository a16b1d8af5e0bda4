/**
  Support graphs: directed graphs whose nodes pair a network variable with a
  forbidden set.  An edge (j, i) reads "j supports i".  The value type `Graph`
  is what the specifications talk about; the class `SupportGraph` is the
  mutable graph object the builder and the pruner update in place.
 */
module SupportGraphs {
  import opened BayesNet

  /** A support node; two nodes are the same exactly when both the variable
      and the forbidden set agree. */
  datatype Node = Node(v: Var, forbidden: set<Var>)

  /** A directed graph over support nodes. */
  datatype Graph = Graph(nodes: set<Node>, edges: set<(Node, Node)>) {

    /** Every edge joins two nodes of the graph. */
    predicate WellFormed() {
      forall e :: e in edges ==> e.0 in nodes && e.1 in nodes
    }
  }

  /** The nodes with an edge into `n` (its supporters). */
  function Predecessors(g: Graph, n: Node): (ps: set<Node>)
    ensures forall m :: m in ps <==> (m, n) in g.edges
  {
    set e | e in g.edges && e.1 == n :: e.0
  }

  /** The nodes `n` has an edge to (the nodes it supports). */
  function Successors(g: Graph, n: Node): (ss: set<Node>)
    ensures forall m :: m in ss <==> (n, m) in g.edges
  {
    set e | e in g.edges && e.0 == n :: e.1
  }

  /** The graph without the nodes of `doomed` and without every edge that
      touches one of them. */
  function RemoveNodes(g: Graph, doomed: set<Node>): Graph
  {
    Graph(g.nodes - doomed, set e | e in g.edges && e.0 !in doomed && e.1 !in doomed)
  }

  /** A walk along edges. */
  ghost predicate IsPath(g: Graph, p: seq<Node>) {
    |p| >= 1 && forall i :: 0 <= i < |p| - 1 ==> (p[i], p[i + 1]) in g.edges
  }

  /** There is a walk of at least one edge from `a` to `b`. */
  ghost predicate Reaches(g: Graph, a: Node, b: Node) {
    exists p :: IsPath(g, p) && |p| >= 2 && p[0] == a && p[|p| - 1] == b
  }

  /** The ancestors of `t`: every other node of the graph with a walk to `t`. */
  ghost function Ancestors(g: Graph, t: Node): set<Node> {
    set m | m in g.nodes && m != t && Reaches(g, m, t)
  }

  /** No walk of one edge or more returns to its start. */
  ghost predicate AcyclicGraph(g: Graph) {
    forall n :: !Reaches(g, n, n)
  }

  /** One edge in front of a walk (or in front of the empty walk at `c`). */
  lemma ReachesStep(g: Graph, a: Node, b: Node, c: Node)
    requires (a, b) in g.edges
    requires b == c || Reaches(g, b, c)
    ensures Reaches(g, a, c)
  {
    if b == c {
      assert IsPath(g, [a, c]);
    } else {
      var p :| IsPath(g, p) && |p| >= 2 && p[0] == b && p[|p| - 1] == c;
      var q := [a] + p;
      assert forall i :: 1 <= i < |q| - 1 ==> q[i] == p[i - 1] && q[i + 1] == p[i];
      assert IsPath(g, q);
    }
  }

  /** A set that holds the end of a walk and every predecessor of each of its
      members holds the start of the walk. */
  lemma {:induction false} PathStartInClosedSet(g: Graph, s: set<Node>, p: seq<Node>)
    requires IsPath(g, p) && p[|p| - 1] in s
    requires forall x, y :: y in s && (x, y) in g.edges ==> x in s
    ensures p[0] in s
  {
    if |p| > 1 {
      var q := p[..|p| - 1];
      assert (q[|q| - 1], p[|p| - 1]) in g.edges;
      PathStartInClosedSet(g, s, q);
    }
  }

  /** The first edge of a walk of one edge or more leaves its start. */
  lemma ReachesHasSuccessor(g: Graph, a: Node, b: Node)
    requires Reaches(g, a, b)
    ensures Successors(g, a) != {}
  {
    var p :| IsPath(g, p) && |p| >= 2 && p[0] == a && p[|p| - 1] == b;
    assert p[1] in Successors(g, a);
  }

  /** The mutable graph object: a set of nodes and a set of edges updated in place. */
  class SupportGraph {
    var nodes: set<Node>
    var edges: set<(Node, Node)>

    /** The graph as it stands now. */
    function Value(): Graph
      reads this
    {
      Graph(nodes, edges)
    }

    /** An empty graph. */
    constructor ()
      ensures nodes == {} && edges == {}
    {
      nodes := {};
      edges := {};
    }

    /** Adds `n`; adding a node already present changes nothing. */
    method AddNode(n: Node)
      modifies this
      ensures nodes == old(nodes) + {n} && edges == old(edges)
    {
      nodes := nodes + {n};
    }

    /** Adds the edge (a, b), and its ends as nodes when they are missing. */
    method AddEdge(a: Node, b: Node)
      modifies this
      ensures nodes == old(nodes) + {a, b} && edges == old(edges) + {(a, b)}
    {
      nodes := nodes + {a, b};
      edges := edges + {(a, b)};
    }

    /** Removes every node of `doomed` together with the edges touching it. */
    method RemoveNodesFrom(doomed: set<Node>)
      modifies this
      ensures Value() == RemoveNodes(old(Value()), doomed)
    {
      edges := set e | e in edges && e.0 !in doomed && e.1 !in doomed;
      nodes := nodes - doomed;
    }

    /** An independent object holding the same graph. */
    method Copy() returns (c: SupportGraph)
      ensures fresh(c) && c.Value() == Value()
    {
      c := new SupportGraph();
      c.nodes := nodes;
      c.edges := edges;
    }
  }
}
