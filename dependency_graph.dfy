/**
 * dependency_graph.py: the dependency-graph builder with its two bounded,
 * depth-first traversals (one over an in-memory fixture, one over a
 * fallible metadata fetch) and its cycle check.
 */
module DependencyGraphModel {
  import opened Wrappers
  import opened Graphs
  import Cycles

  class DependencyGraph {
    /** The adjacency map: package name to the names it depends on. */
    var graph: Graph

    /** A fresh builder has an empty graph. */
    constructor ()
      ensures graph == map[]
    {
      graph := map[];
    }

    /**
     * add_dependency: makes `package` a key and records the edge to
     * `dependency`, ignoring an empty dependency name.
     */
    method AddDependency(package: Name, dependency: Name)
      modifies this
      ensures graph == AddEdge(old(graph), package, dependency, true)
    {
      if package !in graph {
        graph := graph[package := {}];
      }
      if dependency != "" {
        graph := graph[package := graph[package] + {dependency}];
      }
      assert Kept({dependency}, true) == if dependency != "" then {dependency} else {};
      assert graph[package] == Get(old(graph), package) + Kept({dependency}, true);
    }

    /**
     * bfs_test_mode: depth-first expansion of `startPackage` over the fixture
     * `testRepo`, bounded by `maxDepth`. `visited` is the set shared by the
     * whole traversal; the grown set is returned (a top-level call passes {}).
     */
    method BfsTestMode(startPackage: Name, maxDepth: int, testRepo: map<Name, set<Name>>,
                       currentDepth: int, visited: set<Name>) returns (result: set<Name>)
      modifies this
      decreases maxDepth - currentDepth, 1
      ensures visited <= result
      // the depth bound and the already-visited guard change nothing
      ensures currentDepth >= maxDepth || startPackage in visited ==> result == visited && graph == old(graph)
      ensures currentDepth < maxDepth ==> startPackage in result
      ensures currentDepth + 1 < maxDepth && startPackage !in visited ==> Get(testRepo, startPackage) <= result
      // every newly visited node lies within the remaining depth of the start
      ensures AllWithin(Fixture(testRepo), startPackage, result - visited, maxDepth - currentDepth - 1)
      // exactly the fixture's edges out of the newly visited nodes are recorded
      ensures graph == Record(old(graph), Fixture(testRepo), result - visited, true)
    {
      if currentDepth >= maxDepth || startPackage in visited {
        RecordNothing(graph, Fixture(testRepo), true);
        assert visited - visited == {};
        return visited;
      }
      result := visited + {startPackage};
      var dependencies := if startPackage in testRepo then testRepo[startPackage] else {};
      assert dependencies == Fixture(testRepo)(startPackage);
      ghost var g0 := graph;
      result := VisitFixtureDependencies(startPackage, dependencies, maxDepth, testRepo, currentDepth, result);
      MarkStep(g0, Fixture(testRepo), visited, startPackage, result, maxDepth - currentDepth - 1, true);
    }

    /**
     * The loop of bfs_test_mode over the fixture's dependency set of
     * `startPackage` (already marked visited), taken in an arbitrary order:
     * each name gets its edge, and an unvisited one is expanded one level deeper.
     */
    method VisitFixtureDependencies(startPackage: Name, dependencies: set<Name>, maxDepth: int,
                                    testRepo: map<Name, set<Name>>, currentDepth: int, visited: set<Name>)
      returns (result: set<Name>)
      requires currentDepth < maxDepth && startPackage in visited
      requires dependencies == Fixture(testRepo)(startPackage)
      modifies this
      decreases maxDepth - currentDepth, 0
      ensures visited <= result
      ensures currentDepth + 1 < maxDepth ==> dependencies <= result
      ensures AllWithin(Fixture(testRepo), startPackage, result - visited, maxDepth - currentDepth - 1)
      ensures graph == AddEdges(Record(old(graph), Fixture(testRepo), result - visited, true),
                                startPackage, dependencies, true)
    {
      result := visited;
      ghost var g0 := graph;
      ghost var n := maxDepth - currentDepth - 1;
      RecordNothing(g0, Fixture(testRepo), true);
      assert result - visited == {};
      var remaining := dependencies;
      while remaining != {}
        invariant remaining <= dependencies
        invariant visited <= result
        invariant AllWithin(Fixture(testRepo), startPackage, result - visited, n)
        invariant n > 0 ==> dependencies - remaining <= result
        invariant graph == AddEdges(Record(g0, Fixture(testRepo), result - visited, true),
                                    startPackage, dependencies - remaining, true)
        decreases remaining
      {
        var depName :| depName in remaining;
        ghost var done := dependencies - remaining;
        ghost var base := Record(g0, Fixture(testRepo), result - visited, true);
        remaining := remaining - {depName};
        AddDependency(startPackage, depName);
        assert graph == AddEdges(base, startPackage, dependencies - remaining, true) by {
          assert dependencies - remaining == done + {depName};
          AddEdgesStep(base, startPackage, done, depName, true);
        }
        if depName !in result {
          ghost var before := result;
          result := BfsTestMode(depName, maxDepth, testRepo, currentDepth + 1, result);
          ChildStep(g0, Fixture(testRepo), visited, startPackage, dependencies - remaining, before, result,
                    depName, maxDepth - (currentDepth + 1) - 1, n, true);
        }
      }
      assert dependencies - remaining == dependencies;
    }

    /**
     * bfs_with_recursion: the same expansion over a registry fetch. `fetch`
     * stands for fetching and extracting the dependency object of a package
     * (its keys, in the object's order); None is any exception raised on the
     * way, which the traversal catches, leaving the node visited with no edges.
     */
    method BfsWithRecursion(startPackage: Name, maxDepth: int, fetch: Name -> Option<seq<Name>>,
                            currentDepth: int, visited: set<Name>) returns (result: set<Name>)
      modifies this
      decreases maxDepth - currentDepth, 1
      ensures visited <= result
      // the depth bound and the already-visited guard change nothing
      ensures currentDepth >= maxDepth || startPackage in visited ==> result == visited && graph == old(graph)
      ensures currentDepth < maxDepth ==> startPackage in result
      ensures currentDepth + 1 < maxDepth && startPackage !in visited ==> FetchedNames(fetch, startPackage) <= result
      // a failed fetch is not fatal: the node is visited and nothing else happens
      ensures currentDepth < maxDepth && startPackage !in visited && fetch(startPackage).None? ==>
                result == visited + {startPackage} && graph == old(graph)
      // every newly visited node lies within the remaining depth of the start
      ensures AllWithin(Fetched(fetch), startPackage, result - visited, maxDepth - currentDepth - 1)
      // exactly the fetched edges out of the newly visited nodes are recorded
      ensures graph == Record(old(graph), Fetched(fetch), result - visited, true)
    {
      if currentDepth >= maxDepth || startPackage in visited {
        RecordNothing(graph, Fetched(fetch), true);
        assert visited - visited == {};
        return visited;
      }
      result := visited + {startPackage};
      ghost var g0 := graph;
      var metadata := fetch(startPackage);
      match metadata {
        case None =>
          // the exception is caught and reported; the node keeps no dependencies
          assert Fetched(fetch)(startPackage) == {};
          assert result - (visited + {startPackage}) == {};
          RecordNothing(g0, Fetched(fetch), true);
        case Some(dependencies) =>
          assert Fetched(fetch)(startPackage) == Elems(dependencies);
          result := VisitFetchedDependencies(startPackage, dependencies, maxDepth, fetch, currentDepth, result);
      }
      MarkStep(g0, Fetched(fetch), visited, startPackage, result, maxDepth - currentDepth - 1, true);
    }

    /**
     * The loop of bfs_with_recursion over the fetched dependency names of
     * `startPackage` (already marked visited), in the order fetched.
     */
    method VisitFetchedDependencies(startPackage: Name, dependencies: seq<Name>, maxDepth: int,
                                    fetch: Name -> Option<seq<Name>>, currentDepth: int, visited: set<Name>)
      returns (result: set<Name>)
      requires currentDepth < maxDepth && startPackage in visited
      requires fetch(startPackage) == Some(dependencies)
      modifies this
      decreases maxDepth - currentDepth, 0
      ensures visited <= result
      ensures currentDepth + 1 < maxDepth ==> Elems(dependencies) <= result
      ensures AllWithin(Fetched(fetch), startPackage, result - visited, maxDepth - currentDepth - 1)
      ensures graph == AddEdges(Record(old(graph), Fetched(fetch), result - visited, true),
                                startPackage, Elems(dependencies), true)
    {
      result := visited;
      ghost var g0 := graph;
      ghost var n := maxDepth - currentDepth - 1;
      RecordNothing(g0, Fetched(fetch), true);
      assert result - visited == {};
      assert Fetched(fetch)(startPackage) == Elems(dependencies);
      for i := 0 to |dependencies|
        invariant visited <= result
        invariant AllWithin(Fetched(fetch), startPackage, result - visited, n)
        invariant n > 0 ==> Elems(dependencies[..i]) <= result
        invariant graph == AddEdges(Record(g0, Fetched(fetch), result - visited, true),
                                    startPackage, Elems(dependencies[..i]), true)
      {
        var depName := dependencies[i];
        ghost var base := Record(g0, Fetched(fetch), result - visited, true);
        ElemsPrefix(dependencies, i);
        AddDependency(startPackage, depName);
        assert graph == AddEdges(base, startPackage, Elems(dependencies[..i + 1]), true) by {
          AddEdgesStep(base, startPackage, Elems(dependencies[..i]), depName, true);
        }
        if depName !in result {
          ghost var before := result;
          result := BfsWithRecursion(depName, maxDepth, fetch, currentDepth + 1, result);
          ChildStep(g0, Fetched(fetch), visited, startPackage, Elems(dependencies[..i + 1]), before, result,
                    depName, maxDepth - (currentDepth + 1) - 1, n, true);
        }
      }
      assert dependencies[..|dependencies|] == dependencies;
    }

    /** get_all_dependencies: the recorded adjacency map. */
    function GetAllDependencies(): (r: Graph)
      reads this
      ensures r == graph
    {
      graph
    }

    /**
     * has_cycles: whether the recorded edges contain a directed cycle; it only
     * reads the graph, whatever depth bound the edges were recorded under.
     */
    function HasCycles(): (r: bool)
      reads this
      ensures r <==> Cycles.HasCycle(graph)
    {
      Cycles.HasCyclesCorrect(graph);
      Cycles.HasCycles(graph)
    }
  }
}
