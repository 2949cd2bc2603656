/**
 * Concrete runs of the models: small fixtures with their exact outcome,
 * the order dependence of a depth-bounded diamond, the live mode as the
 * repository calls it, and the two extraction and add_dependency variants.
 */
module Scenarios {
  import opened Wrappers
  import opened Graphs
  import Cycles
  import DependencyGraphModel
  import LegacyGraphModel
  import NpmComparison

  const ChainRepo: map<Name, set<Name>> := map["A" := {"B", "C"}, "B" := {"C"}, "C" := {}]
  const ChainGraph: Graph := map["A" := {"B", "C"}, "B" := {"C"}]

  /** No dependency of A, B or C leads outside them. */
  lemma ChainClosed()
    ensures forall x :: x in {"A", "B", "C"} ==> Fixture(ChainRepo)(x) <= {"A", "B", "C"}
  {
    forall x | x in {"A", "B", "C"}
      ensures Fixture(ChainRepo)(x) <= {"A", "B", "C"}
    {
      assert x in ChainRepo;
    }
  }

  /** Expanding A, B and C records two keys; C, with no dependencies, is not a key. */
  lemma ChainRecorded()
    ensures Record(map[], Fixture(ChainRepo), {"A", "B", "C"}, true) == ChainGraph
  {
    var r := Record(map[], Fixture(ChainRepo), {"A", "B", "C"}, true);
    forall k
      ensures k in r <==> k in ChainGraph
      ensures Get(r, k) == Get(ChainGraph, k)
    {
      ChainAt(k);
    }
    assert r.Keys == ChainGraph.Keys;
  }

  /** The expansion of the chain at one name. */
  lemma ChainAt(k: Name)
    ensures k in Record(map[], Fixture(ChainRepo), {"A", "B", "C"}, true) <==> k in ChainGraph
    ensures Get(Record(map[], Fixture(ChainRepo), {"A", "B", "C"}, true), k) == Get(ChainGraph, k)
  {
    RecordAt(map[], Fixture(ChainRepo), {"A", "B", "C"}, true, k);
    if k == "A" {
      assert Kept({"B", "C"}, true) == {"B", "C"};
    } else if k == "B" {
      assert Kept({"C"}, true) == {"C"};
    } else if k == "C" {
      assert Kept({}, true) == {};
    }
  }

  /** What the traversal's contract leaves for the chain: exactly one outcome. */
  lemma ChainOutcome(visited: set<Name>, g: Graph)
    requires "A" in visited && Get(ChainRepo, "A") <= visited
    requires AllWithin(Fixture(ChainRepo), "A", visited - {}, 3 - 0 - 1)
    requires g == Record(map[], Fixture(ChainRepo), visited - {}, true)
    ensures visited == {"A", "B", "C"}
    ensures g == ChainGraph
    ensures !Cycles.HasCycle(g)
  {
    ChainClosed();
    WithinClosed(Fixture(ChainRepo), {"A", "B", "C"}, "A", visited - {}, 3 - 0 - 1);
    assert visited - {} == visited == {"A", "B", "C"};
    ChainRecorded();
    ChainAcyclic();
    Cycles.HasCyclesCorrect(g);
  }

  /** A -> {B, C}, B -> {C}: depth 3 visits all three and records two keys, acyclic. */
  method FixtureTraversal() returns (visited: set<Name>, g: Graph, cyclic: bool)
    ensures visited == {"A", "B", "C"}
    ensures g == map["A" := {"B", "C"}, "B" := {"C"}]
    ensures !cyclic
  {
    var dg := new DependencyGraphModel.DependencyGraph();
    visited := dg.BfsTestMode("A", 3, ChainRepo, 0, {});
    g := dg.GetAllDependencies();
    ChainOutcome(visited, g);
    cyclic := dg.HasCycles();
  }

  /** Every edge of the chain goes down the ranking A > B > C. */
  lemma ChainAcyclic()
    ensures !Cycles.HasCycles(ChainGraph)
  {
    var rank: Name -> nat := v => if v == "A" then 2 else if v == "B" then 1 else 0;
    forall p, q | p in ChainGraph && q in ChainGraph[p]
      ensures rank(q) < rank(p)
    {
    }
    Cycles.RankedIsAcyclic(ChainGraph, rank);
  }

  const LoopRepo: map<Name, set<Name>> := map["A" := {"A"}]

  lemma LoopRecorded()
    ensures Record(map[], Fixture(LoopRepo), {"A"}, true) == LoopRepo
  {
    var r := Record(map[], Fixture(LoopRepo), {"A"}, true);
    forall k
      ensures k in r <==> k in LoopRepo
      ensures Get(r, k) == Get(LoopRepo, k)
    {
      RecordAt(map[], Fixture(LoopRepo), {"A"}, true, k);
      assert Kept(Get(LoopRepo, k), true) == Get(LoopRepo, k);
    }
    assert r.Keys == LoopRepo.Keys;
  }

  lemma LoopOutcome(visited: set<Name>, g: Graph)
    requires AllWithin(Fixture(LoopRepo), "A", visited - {}, 2 - 0 - 1)
    requires "A" in visited
    requires g == Record(map[], Fixture(LoopRepo), visited - {}, true)
    ensures visited == {"A"}
    ensures g == LoopRepo
    ensures Cycles.HasCycle(g)
  {
    assert Fixture(LoopRepo)("A") == {"A"};
    WithinClosed(Fixture(LoopRepo), {"A"}, "A", visited - {}, 2 - 0 - 1);
    assert visited - {} == visited == {"A"};
    LoopRecorded();
    Cycles.SelfLoopIsCycle(g, "A");
    Cycles.HasCyclesCorrect(g);
  }

  /** A -> {A}: the visited guard stops the self-loop, and the cycle is detected. */
  method SelfLoopTraversal() returns (visited: set<Name>, g: Graph, cyclic: bool)
    ensures visited == {"A"}
    ensures g == map["A" := {"A"}]
    ensures cyclic
  {
    var dg := new DependencyGraphModel.DependencyGraph();
    visited := dg.BfsTestMode("A", 2, LoopRepo, 0, {});
    g := dg.GetAllDependencies();
    LoopOutcome(visited, g);
    cyclic := dg.HasCycles();
  }

  /** A zero depth bound visits nothing and records nothing. */
  method ZeroDepthTraversal(repo: map<Name, set<Name>>, start: Name) returns (visited: set<Name>, g: Graph)
    ensures visited == {} && g == map[]
  {
    var dg := new DependencyGraphModel.DependencyGraph();
    visited := dg.BfsTestMode(start, 0, repo, 0, {});
    g := dg.GetAllDependencies();
  }

  /**
   * A -> {B, C}, B -> {C}, C -> {D} at depth 3: D is visited only when C is
   * reached straight from A, so the result depends on the set's iteration
   * order; both outcomes are allowed and nothing else is.
   */
  method DiamondTraversal() returns (visited: set<Name>)
    ensures visited == {"A", "B", "C"} || visited == {"A", "B", "C", "D"}
  {
    var dg := new DependencyGraphModel.DependencyGraph();
    visited := dg.BfsTestMode("A", 3, DiamondRepo, 0, {});
    DiamondOutcome(visited);
  }

  /** The diamond's direct dependencies must be visited, and nothing outside A..D can be. */
  lemma DiamondOutcome(visited: set<Name>)
    requires "A" in visited && Get(DiamondRepo, "A") <= visited
    requires AllWithin(Fixture(DiamondRepo), "A", visited - {}, 3 - 0 - 1)
    ensures visited == {"A", "B", "C"} || visited == {"A", "B", "C", "D"}
  {
    DiamondClosed();
    WithinClosed(Fixture(DiamondRepo), {"A", "B", "C", "D"}, "A", visited - {}, 3 - 0 - 1);
    assert visited - {} == visited;
    assert Get(DiamondRepo, "A") == {"B", "C"};
    if "D" in visited {
      assert visited == {"A", "B", "C", "D"};
    } else {
      assert visited == {"A", "B", "C"};
    }
  }

  const DiamondRepo: map<Name, set<Name>> := map["A" := {"B", "C"}, "B" := {"C"}, "C" := {"D"}]

  lemma DiamondClosed()
    ensures forall x :: x in {"A", "B", "C", "D"} ==> Fixture(DiamondRepo)(x) <= {"A", "B", "C", "D"}
  {
    forall x | x in {"A", "B", "C", "D"}
      ensures Fixture(DiamondRepo)(x) <= {"A", "B", "C", "D"}
    {
      if x == "D" {
        assert x !in DiamondRepo;
      }
    }
  }

  /**
   * The live traversal as dependency_graph.py calls it: the metadata fetch is
   * called with one argument too many, so every fetch raises and is caught.
   * Only the start package is ever visited and no edge is recorded.
   */
  method LiveModeAsWritten(start: Name, maxDepth: int) returns (visited: set<Name>, g: Graph)
    requires maxDepth >= 1
    ensures visited == {start} && g == map[]
  {
    var dg := new DependencyGraphModel.DependencyGraph();
    var fetch: Name -> Option<seq<Name>> := v => None;
    forall v
      ensures Fetched(fetch)(v) == {}
    {
      assert fetch(v) == None;
    }
    visited := dg.BfsWithRecursion(start, maxDepth, fetch, 0, {});
    forall v | v in visited
      ensures v == start
    {
      ReachSilentSource(Fetched(fetch), start, v, maxDepth - 1);
    }
    g := dg.GetAllDependencies();
    RecordSilentSource(map[], Fetched(fetch), visited, true);
  }

  /** The same call in graph.py, with the same outcome. */
  method LegacyLiveModeAsWritten(start: Name, maxDepth: int) returns (visited: set<Name>, g: Graph)
    requires maxDepth >= 1
    ensures visited == {start} && g == map[]
  {
    var dg := new LegacyGraphModel.DependencyGraph();
    var fetch: Name -> Option<seq<Name>> := v => None;
    forall v
      ensures Fetched(fetch)(v) == {}
    {
      assert fetch(v) == None;
    }
    visited := dg.BfsWithRecursion(start, maxDepth, fetch, 0, {});
    forall v | v in visited
      ensures v == start
    {
      ReachSilentSource(Fetched(fetch), start, v, maxDepth - 1);
    }
    g := dg.GetAllDependencies();
    RecordSilentSource(map[], Fetched(fetch), visited, false);
  }

  /** Both builders' has_cycles give the same answer on the same adjacency map. */
  method CycleChecksAgree(g: Graph) returns (current: bool, legacy: bool)
    ensures current == legacy
    ensures current <==> Cycles.HasCycle(g)
  {
    var dg := new DependencyGraphModel.DependencyGraph();
    dg.graph := g;
    current := dg.HasCycles();
    var lg := new LegacyGraphModel.DependencyGraph();
    lg.graph := g;
    legacy := lg.HasCycles();
  }

  /** An empty dependency name: dependency_graph.py drops it, graph.py records it. */
  method EmptyDependencyName() returns (filtered: Graph, legacy: Graph)
    ensures filtered == map["p" := {}]
    ensures legacy == map["p" := {""}]
  {
    var dg := new DependencyGraphModel.DependencyGraph();
    dg.AddDependency("p", "");
    assert Get(map[], "p") + Kept({""}, true) == {};
    filtered := dg.GetAllDependencies();
    var lg := new LegacyGraphModel.DependencyGraph();
    lg.AddDependency("p", "");
    legacy := lg.GetAllDependencies();
    assert Get(map[], "p") + Kept({""}, false) == {""};
  }

  /**
   * a -> {b -> {c}}, then b -> {d} again at the top: the second b is
   * already in the order, yet its child d is still walked and appended.
   */
  method RepeatedNameStillWalked() returns (order: seq<Name>)
    ensures order == ["a", "b", "c", "d"]
  {
    order := NpmComparison.ExtractInstallOrder(RepeatedOutput);
    RepeatedOrder();
  }

  const RepeatedOutput: NpmComparison.PackageInfo :=
    NpmComparison.Dependencies([
      NpmComparison.Entry("a", NpmComparison.Dependencies([
        NpmComparison.Entry("b", NpmComparison.Dependencies([
          NpmComparison.Entry("c", NpmComparison.NoDependencies)]))])),
      NpmComparison.Entry("b", NpmComparison.Dependencies([
        NpmComparison.Entry("d", NpmComparison.NoDependencies)]))])

  lemma RepeatedOrder()
    ensures NpmComparison.InstallOrder(RepeatedOutput) == ["a", "b", "c", "d"]
  {
    RepeatedWalk();
    RepeatedExtend();
  }

  /** The pre-order walk lists b twice. */
  lemma RepeatedWalk()
    ensures NpmComparison.InfoWalk(RepeatedOutput) == ["a", "b", "c", "b", "d"]
  {
    var es := RepeatedOutput.entries;
    var a := es[0];
    var b := a.info.entries[0];
    var c := b.info.entries[0];
    var b2 := es[1];
    var d := b2.info.entries[0];
    assert NpmComparison.Walk([c]) == ["c"] by {
      assert [c][1..] == [];
    }
    assert NpmComparison.Walk([b]) == ["b", "c"] by {
      assert [b][1..] == [];
    }
    assert NpmComparison.Walk([d]) == ["d"] by {
      assert [d][1..] == [];
    }
    assert NpmComparison.Walk([b2]) == ["b", "d"] by {
      assert [b2][1..] == [];
    }
    assert NpmComparison.EntryWalk(a) == ["a", "b", "c"];
    assert es[1..] == [b2];
  }

  /** Keeping first occurrences drops the second b. */
  lemma RepeatedExtend()
    ensures NpmComparison.Extend([], ["a", "b", "c", "b", "d"]) == ["a", "b", "c", "d"]
  {
    var names := ["a", "b", "c", "b", "d"];
    assert names[1..] == ["b", "c", "b", "d"];
    assert names[1..][1..] == ["c", "b", "d"];
    assert names[1..][1..][1..] == ["b", "d"];
    assert names[1..][1..][1..][1..] == ["d"];
    assert ["d"][1..] == [];
    assert NpmComparison.Extend(["a", "b", "c", "d"], []) == ["a", "b", "c", "d"];
    assert NpmComparison.Extend(["a", "b", "c"], ["d"]) == ["a", "b", "c", "d"];
    assert "b" in ["a", "b", "c"];
    assert NpmComparison.Extend(["a", "b", "c"], ["b", "d"]) == ["a", "b", "c", "d"];
    assert NpmComparison.Extend(["a", "b"], ["c", "b", "d"]) == ["a", "b", "c", "d"];
    assert NpmComparison.Extend(["a"], ["b", "c", "b", "d"]) == ["a", "b", "c", "d"];
  }
}
