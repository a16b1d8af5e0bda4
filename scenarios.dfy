/**
  Worked examples: the support graph of a network with one variable, and the
  crime network of the demonstration (Motive -> Psych_report, Motive -> Crime,
  Crime -> DNA_match, Twin -> DNA_match) for the variable Crime, before and
  after pruning with DNA_match as evidence.
 */
module Scenarios {
  import opened BayesNet
  import opened SupportGraphs
  import opened Builder
  import opened Pruner
  import BuilderProperties

  /** A lone variable supports nothing: its graph is the root alone. */
  lemma SingleVariableGraph(x: Var, g: Graph)
    requires IsSupportGraph(Network({x}, {}), x, g)
    ensures g == Graph({Root(x)}, {})
  {
    var net := Network({x}, {});
    var single := Graph({Root(x)}, {});
    forall s ensures !Supports(net, s, Root(x)) {
      assert Parents(net, x) == {} && Children(net, x) == {};
    }
    assert IsSupportGraph(net, x, single);
    BuilderProperties.SupportGraphUnique(net, x, g, single);
  }

  const Motive: Var := "Motive"
  const Psych: Var := "Psych_report"
  const Crime: Var := "Crime"
  const Dna: Var := "DNA_match"
  const Twin: Var := "Twin"

  function CrimeNet(): Network {
    Network({Motive, Psych, Crime, Dna, Twin},
            {(Motive, Psych), (Motive, Crime), (Crime, Dna), (Twin, Dna)})
  }

  // The nodes of the support graph of Crime, derived by hand from the rules.
  const RootC := Node(Crime, {Crime})
  const MotiveN := Node(Motive, {Crime, Motive})           // parent of Crime
  const DnaN := Node(Dna, {Crime, Dna, Twin})              // child of Crime, with its other parent Twin
  const TwinN := Node(Twin, {Crime, Twin, Dna})            // spouse of Crime through DNA_match
  const PsychN := Node(Psych, {Crime, Motive, Psych})      // child of Motive

  function CrimeSupportGraph(): Graph {
    Graph({RootC, MotiveN, DnaN, TwinN, PsychN},
          {(MotiveN, RootC), (DnaN, RootC), (TwinN, RootC), (PsychN, MotiveN)})
  }

  lemma CrimeNetFamilies()
    ensures Parents(CrimeNet(), Crime) == {Motive} && Children(CrimeNet(), Crime) == {Dna}
    ensures Parents(CrimeNet(), Motive) == {} && Children(CrimeNet(), Motive) == {Psych, Crime}
    ensures Parents(CrimeNet(), Dna) == {Crime, Twin} && Children(CrimeNet(), Dna) == {}
    ensures Parents(CrimeNet(), Twin) == {} && Children(CrimeNet(), Twin) == {Dna}
    ensures Parents(CrimeNet(), Psych) == {Motive} && Children(CrimeNet(), Psych) == {}
  {
  }

  /** The Markov blankets of the crime network. */
  lemma CrimeNetBlankets(w: Var)
    ensures InBlanket(CrimeNet(), Crime, w) <==> w in {Motive, Dna, Twin}
    ensures InBlanket(CrimeNet(), Motive, w) <==> w in {Psych, Crime}
    ensures InBlanket(CrimeNet(), Dna, w) <==> w in {Crime, Twin}
    ensures InBlanket(CrimeNet(), Twin, w) <==> w in {Dna, Crime}
    ensures InBlanket(CrimeNet(), Psych, w) <==> w in {Motive}
  {
    CrimeNetFamilies();
  }

  /** The four edges of the hand-derived graph are support requests. */
  lemma CrimeEdgesAreRequests()
    ensures Supports(CrimeNet(), MotiveN, RootC)
    ensures Supports(CrimeNet(), DnaN, RootC)
    ensures Supports(CrimeNet(), TwinN, RootC)
    ensures Supports(CrimeNet(), PsychN, MotiveN)
  {
    CrimeNetFamilies();
    CrimeNetBlankets(Motive);
    CrimeNetBlankets(Dna);
    CrimeNetBlankets(Twin);
    CrimeNetBlankets(Psych);
    assert Dna in Children(CrimeNet(), Crime) && Dna in Children(CrimeNet(), Twin);
  }

  lemma CrimeSoundEdges()
    ensures forall e :: e in CrimeSupportGraph().edges ==>
      e.0 in CrimeSupportGraph().nodes && e.1 in CrimeSupportGraph().nodes && Supports(CrimeNet(), e.0, e.1)
  {
    CrimeEdgesAreRequests();
  }

  lemma CrimeSoundUniverse()
    ensures forall n :: n in CrimeSupportGraph().nodes ==> InUniverse(CrimeNet(), n)
  {
  }

  lemma CrimeSoundOut()
    ensures forall n :: n in CrimeSupportGraph().nodes && n != RootC ==> exists m :: (n, m) in CrimeSupportGraph().edges
  {
    var g := CrimeSupportGraph();
    forall n | n in g.nodes && n != RootC ensures exists m :: (n, m) in g.edges {
      if n == PsychN {
        assert (n, MotiveN) in g.edges;
      } else {
        assert (n, RootC) in g.edges;
      }
    }
  }

  lemma CrimeSupportGraphSound()
    ensures Sound(CrimeNet(), RootC, CrimeSupportGraph())
  {
    CrimeSoundEdges();
    CrimeSoundUniverse();
    CrimeSoundOut();
  }

  /** Expanding the root requests Motive, DNA_match and Twin with the graph's forbidden sets. */
  lemma CrimeRootClosed()
    ensures Closed(CrimeNet(), CrimeSupportGraph(), RootC)
  {
    var net := CrimeNet();
    forall s | Supports(net, s, RootC) ensures s == MotiveN || s == DnaN || s == TwinN {
      CrimeNetBlankets(s.v);
      CrimeNetFamilies();
      if s.v == Twin {
        var k :| k in Children(net, Crime) && k in Children(net, Twin) && s.forbidden == {Crime} + {Twin, k};
        assert k == Dna;
      }
    }
  }

  /** Expanding Motive requests Psych_report only; Crime is forbidden. */
  lemma CrimeMotiveClosed()
    ensures Closed(CrimeNet(), CrimeSupportGraph(), MotiveN)
  {
    forall s | Supports(CrimeNet(), s, MotiveN) ensures s == PsychN {
      CrimeNetBlankets(s.v);
      CrimeNetFamilies();
    }
  }

  /** DNA_match, Twin and Psych_report have their whole blankets forbidden. */
  lemma CrimeLeavesClosed()
    ensures Closed(CrimeNet(), CrimeSupportGraph(), DnaN)
    ensures Closed(CrimeNet(), CrimeSupportGraph(), TwinN)
    ensures Closed(CrimeNet(), CrimeSupportGraph(), PsychN)
  {
    forall s ensures !Supports(CrimeNet(), s, DnaN) && !Supports(CrimeNet(), s, TwinN) && !Supports(CrimeNet(), s, PsychN) {
      CrimeNetBlankets(s.v);
    }
  }

  /** Every node of the hand-derived graph is expanded. */
  lemma CrimeAllClosed()
    ensures forall n :: n in CrimeSupportGraph().nodes ==> Closed(CrimeNet(), CrimeSupportGraph(), n)
  {
    var g := CrimeSupportGraph();
    forall n | n in g.nodes ensures Closed(CrimeNet(), g, n) {
      if n == RootC {
        CrimeRootClosed();
      } else if n == MotiveN {
        CrimeMotiveClosed();
      } else if n == DnaN || n == TwinN {
        CrimeLeavesClosed();
      } else {
        assert n == PsychN;
        CrimeLeavesClosed();
      }
    }
  }

  /** The hand-derived graph answers every support request of its nodes, and nothing else. */
  lemma CrimeSupportGraphIsSupportGraph()
    ensures IsSupportGraph(CrimeNet(), Crime, CrimeSupportGraph())
  {
    assert Root(Crime) == RootC;
    CrimeSupportGraphSound();
    CrimeAllClosed();
  }

  /** The support graph of Crime in the crime network is the hand-derived one. */
  lemma CrimeGraph(g: Graph)
    requires IsSupportGraph(CrimeNet(), Crime, g)
    ensures g == CrimeSupportGraph()
  {
    CrimeSupportGraphIsSupportGraph();
    BuilderProperties.SupportGraphUnique(CrimeNet(), Crime, g, CrimeSupportGraph());
  }

  /** A node without predecessors has no ancestors. */
  lemma NoPredecessorNoAncestor(g: Graph, n: Node)
    requires Predecessors(g, n) == {}
    ensures Ancestors(g, n) == {}
  {
    if m :| m in Ancestors(g, n) {
      var p :| IsPath(g, p) && |p| >= 2 && p[0] == m && p[|p| - 1] == n;
      assert p[|p| - 2] in Predecessors(g, n);
    }
  }

  /** When no evidence node has a supporter, Rule 1 marks nothing and a pass
      marks exactly the dead ends. */
  lemma MarkedIsDeadEnds(g: Graph, evidence: set<Var>)
    requires forall n :: n in g.nodes && n.v in evidence ==> Predecessors(g, n) == {}
    ensures Marked(g, evidence) == set m | m in g.nodes && DeadEnd(g, evidence, m)
  {
    forall n | n in g.nodes && n.v in evidence ensures Ancestors(g, n) == {} {
      NoPredecessorNoAncestor(g, n);
    }
  }

  // The graphs between the passes of pruning the crime support graph with
  // DNA_match as evidence.
  function AfterFirstPass(): Graph {
    Graph({RootC, MotiveN, DnaN}, {(MotiveN, RootC), (DnaN, RootC)})
  }

  function AfterSecondPass(): Graph {
    Graph({RootC, DnaN}, {(DnaN, RootC)})
  }

  lemma FirstPass()
    ensures Marked(CrimeSupportGraph(), {Dna}) == {PsychN, TwinN}
  {
    var g := CrimeSupportGraph();
    assert Predecessors(g, DnaN) == {};
    MarkedIsDeadEnds(g, {Dna});
    assert Predecessors(g, MotiveN) == {PsychN};
    assert Successors(g, RootC) == {};
    assert Predecessors(g, PsychN) == {} && Successors(g, PsychN) == {MotiveN};
    assert Predecessors(g, TwinN) == {} && Successors(g, TwinN) == {RootC};
  }

  lemma SecondPass()
    ensures Marked(AfterFirstPass(), {Dna}) == {MotiveN}
  {
    var g := AfterFirstPass();
    assert Predecessors(g, DnaN) == {};
    MarkedIsDeadEnds(g, {Dna});
    assert Successors(g, RootC) == {};
    assert Predecessors(g, MotiveN) == {} && Successors(g, MotiveN) == {RootC};
  }

  lemma ThirdPass()
    ensures Marked(AfterSecondPass(), {Dna}) == {}
  {
    var g := AfterSecondPass();
    assert Predecessors(g, DnaN) == {};
    MarkedIsDeadEnds(g, {Dna});
    assert Successors(g, RootC) == {};
  }

  lemma FirstRemoval()
    ensures RemoveNodes(CrimeSupportGraph(), {PsychN, TwinN}) == AfterFirstPass()
  {
  }

  lemma SecondRemoval()
    ensures RemoveNodes(AfterFirstPass(), {MotiveN}) == AfterSecondPass()
  {
  }

  /** Pruning the crime support graph with DNA_match as evidence removes
      Psych_report and Twin, then Motive, and keeps DNA_match supporting Crime. */
  lemma CrimePruning()
    ensures Prune(CrimeSupportGraph(), {Dna}) == AfterSecondPass()
  {
    var e := {Dna};
    assert Prune(AfterSecondPass(), e) == AfterSecondPass() by {
      ThirdPass();
    }
    assert Prune(AfterFirstPass(), e) == Prune(AfterSecondPass(), e) by {
      SecondPass();
      SecondRemoval();
    }
    assert Prune(CrimeSupportGraph(), e) == Prune(AfterFirstPass(), e) by {
      FirstPass();
      FirstRemoval();
    }
  }
}
