/**
  Building the support graph of a variable of interest.

  The root node is (v, {v}).  Expanding a node (v, F) looks at every blanket
  variable w of v outside F and issues support requests for it:
    - w a parent of v:   one request with F + {w};
    - else w a child:    one request with F + {w} + (parents(w) - {v});
    - else w a spouse:   one request per common child k with F + {w, k},
                         issued only when there is no edge between v and w.
  A request adds the supporter node once, adds the edge supporter -> supported
  once, and schedules the supporter for expansion only when it is new.

  Expansion uses a work list of nodes still to expand.  `IsSupportGraph`
  characterises the result without reference to any expansion order, and
  `SupportGraphUnique` shows it admits a single graph, so the order in which
  the work list is processed does not matter.
 */
module Builder {
  import opened BayesNet
  import opened SupportGraphs

  /** The root node of the support graph of `v`. */
  function Root(v: Var): Node {
    Node(v, {v})
  }

  /** `s` is one of the supporters that expanding `n` requests, with the
      forbidden set the classification of `s.v` (parent, else child, else
      spouse) gives it. */
  ghost predicate Supports(net: Network, s: Node, n: Node) {
    && InBlanket(net, n.v, s.v)
    && s.v !in n.forbidden
    && (if s.v in Parents(net, n.v) then
          s.forbidden == n.forbidden + {s.v}
        else if s.v in Children(net, n.v) then
          s.forbidden == n.forbidden + {s.v} + (Parents(net, s.v) - {n.v})
        else
          exists k :: k in Children(net, n.v) && k in Children(net, s.v) && s.forbidden == n.forbidden + {s.v, k})
  }

  /** A node made of network variables only. */
  ghost predicate InUniverse(net: Network, n: Node) {
    n.v in net.vars && n.forbidden <= net.vars
  }

  /** Every node that can be made of network variables: a finite set that
      bounds the support graph. */
  ghost function Universe(net: Network): set<Node> {
    set v, f | v in net.vars && f <= net.vars :: Node(v, f)
  }

  /** Every supporter that expanding `n` requests is in the graph, with its edge to `n`. */
  ghost predicate Closed(net: Network, g: Graph, n: Node) {
    forall s :: Supports(net, s, n) ==> s in g.nodes && (s, n) in g.edges
  }

  /** What holds of the graph at every stage of the construction: the root is
      present, nodes are made of network variables, every edge is a support
      request of its target, and every node but the root has an outgoing edge. */
  ghost predicate Sound(net: Network, root: Node, g: Graph) {
    && root in g.nodes
    && (forall n :: n in g.nodes ==> InUniverse(net, n))
    && (forall e :: e in g.edges ==> e.0 in g.nodes && e.1 in g.nodes && Supports(net, e.0, e.1))
    && (forall n :: n in g.nodes && n != root ==> exists m :: (n, m) in g.edges)
  }

  /** `g` is the support graph of `v` in `net`: sound, and every node is expanded. */
  ghost predicate IsSupportGraph(net: Network, v: Var, g: Graph) {
    && Sound(net, Root(v), g)
    && forall n :: n in g.nodes ==> Closed(net, g, n)
  }

  /** The invariant of the work list: every node outside it has been expanded. */
  ghost predicate BuildInv(net: Network, root: Node, g: Graph, work: seq<Node>) {
    && Sound(net, root, g)
    && (forall x :: x in work ==> x in g.nodes)
    && (forall n :: n in g.nodes && n !in work ==> Closed(net, g, n))
  }

  /** `after` extends `before`, and everything it adds is a supporter of `n`
      or an edge from such a supporter into `n`. */
  ghost predicate GrowsBySupportersOf(net: Network, n: Node, before: Graph, after: Graph) {
    && before.nodes <= after.nodes && before.edges <= after.edges
    && (forall m :: m in after.nodes ==> m in before.nodes || Supports(net, m, n))
    && (forall e :: e in after.edges ==> e in before.edges || (e.1 == n && Supports(net, e.0, n)))
  }

  lemma GrowsTransitive(net: Network, n: Node, a: Graph, b: Graph, c: Graph)
    requires GrowsBySupportersOf(net, n, a, b) && GrowsBySupportersOf(net, n, b, c)
    ensures GrowsBySupportersOf(net, n, a, c)
  {
  }

  /** A supporter's forbidden set holds the supported node's forbidden set and
      the supporter's own variable, which was not forbidden before, so
      forbidden sets strictly grow along edges. */
  lemma SupportGrows(net: Network, s: Node, n: Node)
    requires Supports(net, s, n)
    ensures n.forbidden + {s.v} <= s.forbidden
    ensures s.v !in n.forbidden && n.forbidden < s.forbidden
  {
  }

  /** A supporter of a node made of network variables is made of network variables. */
  lemma SupporterInUniverse(net: Network, s: Node, n: Node)
    requires net.WellFormed() && InUniverse(net, n) && Supports(net, s, n)
    ensures InUniverse(net, s)
  {
    if s.v !in Parents(net, n.v) && s.v !in Children(net, n.v) {
      var k :| k in Children(net, n.v) && k in Children(net, s.v) && s.forbidden == n.forbidden + {s.v, k};
      assert (n.v, k) in net.edges;
    }
  }

  /** The spouse case's no-edge check always succeeds: a blanket member that
      is neither a parent nor a child of `v` shares a child with `v` and has no
      edge to or from `v`. */
  lemma SpouseCheckHolds(net: Network, v: Var, w: Var)
    requires InBlanket(net, v, w)
    requires w !in Parents(net, v) && w !in Children(net, v)
    ensures (v, w) !in net.edges && (w, v) !in net.edges
    ensures Children(net, v) * Children(net, w) != {}
  {
    var k :| k in Children(net, v) && w in Parents(net, k);
    assert k in Children(net, v) * Children(net, w);
  }

  /** Adding a requested supporter of `nodeI` with its edge keeps the work-list
      invariant, once the supporter is scheduled when it is new. */
  lemma AddSupporterKeepsInv(net: Network, root: Node, g: Graph, nodeI: Node, nodeJ: Node, work: seq<Node>)
    requires net.WellFormed()
    requires nodeI in g.nodes && Supports(net, nodeJ, nodeI)
    requires BuildInv(net, root, g, work + [nodeI])
    ensures BuildInv(net, root, Graph(g.nodes + {nodeJ}, g.edges + {(nodeJ, nodeI)}),
                     (if nodeJ in g.nodes then work else work + [nodeJ]) + [nodeI])
    ensures GrowsBySupportersOf(net, nodeI, g, Graph(g.nodes + {nodeJ}, g.edges + {(nodeJ, nodeI)}))
  {
    SupporterInUniverse(net, nodeJ, nodeI);
  }

  /**
    `_add_support`: requests supporter (varJ, fNew) for nodeI.  A new node is
    inserted with its edge and scheduled for expansion; a node already present
    only gains the edge when it is missing and is not scheduled again.
   */
  method AddSupport(net: Network, ghost root: Node, sg: SupportGraph, nodeI: Node, varJ: Var, fNew: set<Var>, work: seq<Node>)
    returns (work': seq<Node>)
    requires net.WellFormed()
    requires nodeI in sg.nodes && Supports(net, Node(varJ, fNew), nodeI)
    requires BuildInv(net, root, sg.Value(), work + [nodeI])
    modifies sg
    ensures BuildInv(net, root, sg.Value(), work' + [nodeI])
    ensures sg.nodes == old(sg.nodes) + {Node(varJ, fNew)}
    ensures sg.edges == old(sg.edges) + {(Node(varJ, fNew), nodeI)}
    ensures work' == if Node(varJ, fNew) in old(sg.nodes) then work else work + [Node(varJ, fNew)]
    ensures GrowsBySupportersOf(net, nodeI, old(sg.Value()), sg.Value())
  {
    var nodeJ := Node(varJ, fNew);
    ghost var before := sg.Value();
    if nodeJ !in sg.nodes {
      sg.AddNode(nodeJ);
      sg.AddEdge(nodeJ, nodeI);
      work' := work + [nodeJ];
    } else if (nodeJ, nodeI) !in sg.edges {
      sg.AddEdge(nodeJ, nodeI);
      work' := work;
    } else {
      work' := work;
    }
    assert sg.Value() == Graph(before.nodes + {nodeJ}, before.edges + {(nodeJ, nodeI)});
    AddSupporterKeepsInv(net, root, before, nodeI, nodeJ, work);
  }

  /**
    The spouse case of `_expand`: `vj` is in the blanket of `node`, outside its
    forbidden set, and neither a parent nor a child of it.  One support
    request is issued per child the two variables share, provided there is no
    edge between them.
   */
  method AddSpouseSupports(net: Network, ghost root: Node, sg: SupportGraph, node: Node, vj: Var, work: seq<Node>)
    returns (work': seq<Node>)
    requires net.WellFormed()
    requires node in sg.nodes
    requires InBlanket(net, node.v, vj) && vj !in node.forbidden
    requires vj !in Parents(net, node.v) && vj !in Children(net, node.v)
    requires BuildInv(net, root, sg.Value(), work + [node])
    modifies sg
    ensures BuildInv(net, root, sg.Value(), work' + [node])
    ensures forall s :: Supports(net, s, node) && s.v == vj ==> s in sg.nodes && (s, node) in sg.edges
    ensures GrowsBySupportersOf(net, node, old(sg.Value()), sg.Value())
    ensures sg.nodes == old(sg.nodes) ==> work' == work
  {
    var vi, fi := node.v, node.forbidden;
    var commonChildren := Children(net, vi) * Children(net, vj);
    var ks := commonChildren;
    work' := work;
    while ks != {}
      invariant ks <= commonChildren
      invariant BuildInv(net, root, sg.Value(), work' + [node])
      invariant GrowsBySupportersOf(net, node, old(sg.Value()), sg.Value())
      invariant sg.nodes == old(sg.nodes) ==> work' == work
      invariant forall k :: k in commonChildren && k !in ks ==>
        Node(vj, fi + {vj, k}) in sg.nodes && (Node(vj, fi + {vj, k}), node) in sg.edges
      decreases ks
    {
      var vk :| vk in ks;
      ks := ks - {vk};
      if (vi, vj) !in net.edges && (vj, vi) !in net.edges {
        ghost var mid := sg.Value();
        work' := AddSupport(net, root, sg, node, vj, fi + {vj, vk}, work');
        GrowsTransitive(net, node, old(sg.Value()), mid, sg.Value());
      }
    }
    forall s | Supports(net, s, node) && s.v == vj
      ensures s in sg.nodes && (s, node) in sg.edges
    {
      var k :| k in Children(net, vi) && k in Children(net, vj) && s.forbidden == fi + {vj, k};
      assert k in commonChildren && s == Node(vj, fi + {vj, k});
    }
  }

  /**
    `_expand`: issues every support request of `node`, walking its Markov
    blanket and, for a spouse, the children it shares with the node.
   */
  method Expand(net: Network, ghost root: Node, sg: SupportGraph, node: Node, work: seq<Node>)
    returns (work': seq<Node>)
    requires net.WellFormed()
    requires node in sg.nodes
    requires BuildInv(net, root, sg.Value(), work + [node])
    modifies sg
    ensures BuildInv(net, root, sg.Value(), work')
    ensures Closed(net, sg.Value(), node)
    ensures GrowsBySupportersOf(net, node, old(sg.Value()), sg.Value())
    ensures sg.nodes == old(sg.nodes) ==> work' == work
  {
    var vi, fi := node.v, node.forbidden;
    var blanket := GetMarkovBlanket(net, vi);
    var todo := blanket;
    work' := work;
    while todo != {}
      invariant todo <= blanket
      invariant BuildInv(net, root, sg.Value(), work' + [node])
      invariant GrowsBySupportersOf(net, node, old(sg.Value()), sg.Value())
      invariant sg.nodes == old(sg.nodes) ==> work' == work
      invariant forall s :: Supports(net, s, node) && s.v !in todo ==> s in sg.nodes && (s, node) in sg.edges
      decreases todo
    {
      var vj :| vj in todo;
      todo := todo - {vj};
      if vj in fi {
        // already forbidden on this path
      } else if vj in Parents(net, vi) {
        ghost var mid := sg.Value();
        work' := AddSupport(net, root, sg, node, vj, fi + {vj}, work');
        GrowsTransitive(net, node, old(sg.Value()), mid, sg.Value());
      } else if vj in Children(net, vi) {
        ghost var mid := sg.Value();
        work' := AddSupport(net, root, sg, node, vj, fi + {vj} + (Parents(net, vj) - {vi}), work');
        GrowsTransitive(net, node, old(sg.Value()), mid, sg.Value());
      } else {
        ghost var mid := sg.Value();
        work' := AddSpouseSupports(net, root, sg, node, vj, work');
        GrowsTransitive(net, node, old(sg.Value()), mid, sg.Value());
      }
    }
  }

  /** Growing the node set inside the universe shrinks what is left of it. */
  lemma GrowthShrinksRemainder(net: Network, before: set<Node>, after: set<Node>)
    requires before <= after && after <= Universe(net)
    ensures after != before ==> Universe(net) - after < Universe(net) - before
  {
    if exists y :: y in after && y !in before {
      var x :| x in after && x !in before;
      assert x in (Universe(net) - before) - (Universe(net) - after);
    } else {
      assert after == before;
    }
  }

  /** The nodes of a graph made of network variables lie in the universe. */
  lemma NodesInUniverse(net: Network, g: Graph)
    requires forall n :: n in g.nodes ==> InUniverse(net, n)
    ensures g.nodes <= Universe(net)
  {
    forall n | n in g.nodes ensures n in Universe(net) {
      assert n == Node(n.v, n.forbidden);
    }
  }

  /**
    `create_support_graph`: the support graph of `variable`, built from the
    root (variable, {variable}) by expanding each node once, when it is
    inserted.  The graph library raises an error for a variable that is not
    in the network, so membership is required; the network is assumed acyclic.
   */
  method CreateSupportGraph(net: Network, variable: Var) returns (sg: SupportGraph)
    requires net.WellFormed() && Acyclic(net) && variable in net.vars
    ensures fresh(sg)
    ensures IsSupportGraph(net, variable, sg.Value())
  {
    sg := new SupportGraph();
    var root := Root(variable);
    sg.AddNode(root);
    var work := [root];
    while work != []
      invariant fresh(sg)
      invariant BuildInv(net, root, sg.Value(), work)
      decreases Universe(net) - sg.nodes, |work|
    {
      var node := work[|work| - 1];
      assert work == work[..|work| - 1] + [node];
      work := work[..|work| - 1];
      ghost var before := sg.nodes;
      work := Expand(net, root, sg, node, work);
      NodesInUniverse(net, sg.Value());
      GrowthShrinksRemainder(net, before, sg.nodes);
    }
  }
}
