/**
  The Bayesian network a support graph is built from: a finite set of
  variables and a parent-to-child edge relation, read but never changed by
  the builder.  The Markov blanket of a variable is its parents, its children
  and the other parents of its children.
 */
module BayesNet {

  /** Variables are identified by their names. */
  type Var = string

  /** A directed graph over variables; an edge (a, b) makes a a parent of b. */
  datatype Network = Network(vars: set<Var>, edges: set<(Var, Var)>) {

    /** Every edge joins two variables of the network, as in any graph library. */
    predicate WellFormed() {
      forall e :: e in edges ==> e.0 in vars && e.1 in vars
    }
  }

  /** The predecessors of `v`: the variables with an edge into it. */
  function Parents(net: Network, v: Var): (ps: set<Var>)
    ensures forall u :: u in ps <==> (u, v) in net.edges
  {
    set e | e in net.edges && e.1 == v :: e.0
  }

  /** The successors of `v`: the variables it has an edge to. */
  function Children(net: Network, v: Var): (cs: set<Var>)
    ensures forall u :: u in cs <==> (v, u) in net.edges
  {
    set e | e in net.edges && e.0 == v :: e.1
  }

  /** `w` belongs to the Markov blanket of `v`: it is a parent, a child or a
      parent of a child of `v`, and it is not `v` itself. */
  ghost predicate InBlanket(net: Network, v: Var, w: Var) {
    && w != v
    && (|| w in Parents(net, v)
        || w in Children(net, v)
        || exists k :: k in Children(net, v) && w in Parents(net, k))
  }

  /** A walk along parent-to-child edges. */
  ghost predicate IsNetPath(net: Network, p: seq<Var>) {
    |p| >= 1 && forall i :: 0 <= i < |p| - 1 ==> (p[i], p[i + 1]) in net.edges
  }

  /** No walk of one edge or more returns to where it started. */
  ghost predicate Acyclic(net: Network) {
    forall p :: IsNetPath(net, p) && |p| >= 2 ==> p[0] != p[|p| - 1]
  }

  /**
    Collects the Markov blanket of `variable`: first its parents and children,
    then, child by child, the parents of each child, and finally drops the
    variable itself.  Looking up a variable that is not in the network is an
    error of the graph library, so membership is required.
   */
  method GetMarkovBlanket(net: Network, variable: Var) returns (blanket: set<Var>)
    requires variable in net.vars
    ensures forall w :: w in blanket <==> InBlanket(net, variable, w)
  {
    blanket := Parents(net, variable);
    var children := Children(net, variable);
    blanket := blanket + children;
    var todo := children;
    while todo != {}
      invariant todo <= children
      invariant forall w :: w in blanket <==>
        || w in Parents(net, variable)
        || w in children
        || exists k :: k in children && k !in todo && w in Parents(net, k)
      decreases todo
    {
      var child :| child in todo;
      blanket := blanket + Parents(net, child);
      todo := todo - {child};
    }
    blanket := blanket - {variable};
  }

  /** In an acyclic network no variable is its own parent, and no variable is
      both a parent and a child of another, so the builder's classification of
      a blanket member as parent, child or spouse is a partition. */
  lemma ParentChildExclusive(net: Network, v: Var, w: Var)
    requires Acyclic(net)
    ensures v !in Parents(net, v)
    ensures !(w in Parents(net, v) && w in Children(net, v))
  {
    if v in Parents(net, v) {
      assert IsNetPath(net, [v, v]);
    }
    if w in Parents(net, v) && w in Children(net, v) {
      assert IsNetPath(net, [v, w, v]);
    }
  }
}
