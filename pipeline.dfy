/** The whole pipeline on a small technology list: A requires B, B requires
    C, C requires nothing. */
module Pipeline {
  import opened Arrays
  import opened Interfaces
  import opened Formatters
  import opened Filters
  import opened Graph

  function Chain(): seq<Technology>
  {
    [ Technology("A", "language", None, ["B"]),
      Technology("B", "tool", None, ["C"]),
      Technology("C", "tool", None, []) ]
  }

  function ChainNodes(): seq<Node>
  {
    [Node("A", "language", None), Node("B", "tool", None), Node("C", "tool", None)]
  }

  function ChainLinks(): seq<Link>
  {
    [Link(Some(0), Some(1)), Link(Some(1), Some(2))]
  }

  /** One node per technology. */
  lemma {:induction false} ChainNodesBuilt()
    ensures DataToNodes(Chain()) == ChainNodes()
  {
  }

  /** Each name resolves to its own node. */
  lemma {:induction false} ChainFinds()
    ensures FindNode(ChainNodes(), "A") == Some(0)
    ensures FindNode(ChainNodes(), "B") == Some(1)
    ensures FindNode(ChainNodes(), "C") == Some(2)
  {
    var nodes := ChainNodes();
    assert nodes[0].name == "A" && nodes[1].name == "B" && nodes[2].name == "C";
  }

  /** A's single requirement gives A→B, B's gives B→C. */
  lemma {:induction false} ChainRequireLinks()
    ensures RequireLinks(ChainNodes(), "A", ["B"]) == [Link(Some(0), Some(1))]
    ensures RequireLinks(ChainNodes(), "B", ["C"]) == [Link(Some(1), Some(2))]
  {
    ChainFinds();
    assert ["B"][..0] == [] && ["C"][..0] == [];
  }

  /** The links are A→B and then B→C. */
  lemma {:induction false} ChainLinksBuilt()
    ensures Links(Chain(), ChainNodes()) == ChainLinks()
  {
    var nodes := ChainNodes();
    var t := Chain();
    ChainRequireLinks();
    assert t[..2][..1] == t[..1] && t[..1][..0] == [];
    assert Links(t[..1], nodes) == [Link(Some(0), Some(1))];
    assert Links(t[..2], nodes) == ChainLinks();
  }

  /** A requires B, B requires C, C requires nothing. */
  lemma {:induction false} ChainRequirements()
    ensures Requirements(ChainNodes(), ChainLinks(), 0) == [Some(1)]
    ensures Requirements(ChainNodes(), ChainLinks(), 1) == [Some(2)]
    ensures Requirements(ChainNodes(), ChainLinks(), 2) == []
  {
    var links := ChainLinks();
    assert links[1..][1..] == [];
  }

  /** The dependencies of A are B, then C; C has none. */
  lemma {:induction false} ChainDeps(d: nat)
    requires d >= 2
    ensures Deps(ChainNodes(), ChainLinks(), 0, d, []) == [1, 2]
    ensures Deps(ChainNodes(), ChainLinks(), 2, d, []) == []
  {
    var nodes := ChainNodes();
    var links := ChainLinks();
    ChainRequirements();
    assert Targets([Some(1)]) == [1] && Targets([Some(2)]) == [2] by {
      assert [Some(1)][1..] == [] && [Some(2)][1..] == [];
    }
    assert Deps(nodes, links, 2, d - 2, [1, 2]) == [1, 2];
    assert DepsAll(nodes, links, [2], d - 2, [1, 2]) == [1, 2] by {
      assert [2][1..] == [];
    }
    assert [1] + [2] == [1, 2] && [] + [1] == [1];
    assert Deps(nodes, links, 1, d - 1, [1]) == DepsAll(nodes, links, [2], d - 2, [1, 2]);
    assert Deps(nodes, links, 1, d - 1, [1]) == [1, 2];
    assert DepsAll(nodes, links, [1], d - 1, [1]) == [1, 2] by {
      assert [1][1..] == [];
    }
    assert Deps(nodes, links, 0, d, []) == DepsAll(nodes, links, [1], d - 1, [1]);
  }

  /** The chain is acyclic: the bound `getDependencies` needs holds for A
      with depth 2, so selecting any of the three is safe. */
  lemma {:induction false} ChainBounded(d: nat)
    requires d >= 2
    ensures SourcesDefined(ChainNodes(), ChainLinks())
    ensures Bounded(ChainNodes(), ChainLinks(), 2, d - 2)
    ensures Bounded(ChainNodes(), ChainLinks(), 1, d - 1)
    ensures Bounded(ChainNodes(), ChainLinks(), 0, d)
  {
    var nodes := ChainNodes();
    var links := ChainLinks();
    ChainRequirements();
    SourcesDefinedMeans(nodes, links);
  }

  /** Selecting by name: a known name gives its node, any other name nothing. */
  lemma {:induction false} ChainSeeds(name: string)
    ensures Seeds(ChainNodes(), [name]) ==
      if name == "A" then [0] else if name == "B" then [1] else if name == "C" then [2] else []
  {
    var nodes := ChainNodes();
    assert nodes[..2][..1] == nodes[..1] && nodes[..1][..0] == [] && nodes[..3] == nodes;
    assert nodes[0].name in [name] <==> name == "A";
    assert nodes[1].name in [name] <==> name == "B";
    assert nodes[2].name in [name] <==> name == "C";
    assert nodes[..1][0] == nodes[0] && nodes[..2][1] == nodes[1];
    assert Seeds(nodes[..1][..0], [name]) == [];
    var s1 := Seeds(nodes[..1], [name]);
    assert s1 == if name == "A" then [0] else [];
    var s2 := Seeds(nodes[..2], [name]);
    assert s2 == if name == "A" then [0] else if name == "B" then [1] else [];
  }

  /** The dependencies gathered for seed A are B and C. */
  lemma {:induction false} ChainSeedDepsA()
    ensures SeedDeps(ChainNodes(), ChainLinks(), [0], 3) == [1, 2]
  {
    ChainDeps(3);
    assert [0][..0] == [];
  }

  /** Seed C gathers no dependencies. */
  lemma {:induction false} ChainSeedDepsC()
    ensures SeedDeps(ChainNodes(), ChainLinks(), [2], 3) == []
  {
    ChainDeps(3);
    assert [2][..0] == [];
  }

  /** Selecting A shows A and, after it, its dependencies B and C. */
  lemma {:induction false} ChainFilteredA()
    ensures Filtered(ChainNodes(), ChainLinks(), ["A"], 3) == [0, 1, 2]
  {
    var a: seq<NodeId> := [0] + [1, 2];
    assert a == [0, 1, 2];
    DedupOfDistinct(a);
    ChainSeeds("A");
    ChainSeedDepsA();
  }

  /** Selecting C, which requires nothing, shows C alone. */
  lemma {:induction false} ChainFilteredC()
    ensures Filtered(ChainNodes(), ChainLinks(), ["C"], 3) == [2]
  {
    var c: seq<NodeId> := [2] + [];
    assert c == [2];
    DedupOfDistinct(c);
    ChainSeeds("C");
    ChainSeedDepsC();
  }

  /** Selecting a name no node has shows nothing. */
  lemma {:induction false} ChainFilteredUnknown()
    ensures Filtered(ChainNodes(), ChainLinks(), ["Z"], 3) == []
  {
    ChainSeeds("Z");
    var seeds := Seeds(ChainNodes(), ["Z"]);
    assert seeds + SeedDeps(ChainNodes(), ChainLinks(), seeds, 3) == [];
  }

  /** Showing A, B and C draws both links, as does showing every node;
      showing C alone draws none. */
  lemma {:induction false} ChainShown()
    ensures Graph(ChainNodes(), ChainLinks()).BuildLinks(Some([0, 1, 2])) == ChainLinks()
    ensures Graph(ChainNodes(), ChainLinks()).BuildLinks(Some([2])) == []
    ensures Graph(ChainNodes(), ChainLinks()).BuildLinks(None) == ChainLinks()
  {
    var g := Graph(ChainNodes(), ChainLinks());
    var links := ChainLinks();
    assert links[..1][..0] == [] && links[..2][..1] == links[..1] && links[..2] == links;
    assert links[..1][0] == links[0];
    var all := g.Shown(None);
    assert 0 in all && 1 in all && 2 in all by {
      assert all[0] == 0 && all[1] == 1 && all[2] == 2;
    }
  }

  /** Only C, which requires nothing, is a source. */
  lemma {:induction false} ChainSources()
    ensures Graph(ChainNodes(), ChainLinks()).IsSource(2)
    ensures !Graph(ChainNodes(), ChainLinks()).IsSource(0) && !Graph(ChainNodes(), ChainLinks()).IsSource(1)
  {
    var g := Graph(ChainNodes(), ChainLinks());
    assert g.links[0].source == Some(0) && g.links[1].source == Some(1);
  }
}
