/**
 * graph.py: the earlier copy of the dependency-graph builder. It differs from
 * dependency_graph.py in that add_dependency records every name, the empty
 * one included, and in an instance field `visited` that no method reads or
 * writes (the traversal uses its own `visited` argument).
 */
module LegacyGraphModel {
  import opened Wrappers
  import opened Graphs
  import Cycles

  class DependencyGraph {
    /** The adjacency map: package name to the names it depends on. */
    var graph: Graph
    /** Initialised to the empty set and never used afterwards. */
    var visited: set<Name>

    /** A fresh builder has an empty graph and an empty, unused visited set. */
    constructor ()
      ensures graph == map[] && visited == {}
    {
      graph := map[];
      visited := {};
    }

    /** add_dependency: makes `package` a key and records the edge to `dependency`, whatever its name. */
    method AddDependency(package: Name, dependency: Name)
      modifies this`graph
      ensures graph == AddEdge(old(graph), package, dependency, false)
    {
      if package !in graph {
        graph := graph[package := {}];
      }
      graph := graph[package := graph[package] + {dependency}];
      assert graph[package] == Get(old(graph), package) + Kept({dependency}, false);
    }

    /**
     * bfs_with_recursion: depth-first expansion of `startPackage` over a
     * registry fetch, bounded by `maxDepth`; `visited` is the set shared by the
     * whole traversal and the grown set is returned. `fetch` stands for fetching and extracting the dependency object of a package
     * (its keys, in the object's order); None is any exception raised on the
     * way, which the traversal catches, leaving the node visited with no edges.
     */
    method BfsWithRecursion(startPackage: Name, maxDepth: int, fetch: Name -> Option<seq<Name>>,
                            currentDepth: int, visited: set<Name>) returns (result: set<Name>)
      modifies this`graph
      decreases maxDepth - currentDepth, 1
      ensures visited <= result
      // the depth bound and the already-visited guard change nothing
      ensures currentDepth >= maxDepth || startPackage in visited ==> result == visited && graph == old(graph)
      ensures currentDepth < maxDepth ==> startPackage in result
      ensures currentDepth + 1 < maxDepth && startPackage !in visited ==> FetchedNames(fetch, startPackage) <= result
      // a failed fetch is not fatal: the node is visited and nothing else happens
      ensures currentDepth < maxDepth && startPackage !in visited && fetch(startPackage).None? ==>
                result == visited + {startPackage} && graph == old(graph)
      // every newly visited node lies within the remaining depth of the start
      ensures AllWithin(Fetched(fetch), startPackage, result - visited, maxDepth - currentDepth - 1)
      // exactly the fetched edges out of the newly visited nodes are recorded
      ensures graph == Record(old(graph), Fetched(fetch), result - visited, false)
    {
      if currentDepth >= maxDepth || startPackage in visited {
        RecordNothing(graph, Fetched(fetch), false);
        assert visited - visited == {};
        return visited;
      }
      result := visited + {startPackage};
      ghost var g0 := graph;
      var metadata := fetch(startPackage);
      match metadata {
        case None =>
          // the exception is caught and reported; the node keeps no dependencies
          assert Fetched(fetch)(startPackage) == {};
          assert result - (visited + {startPackage}) == {};
          RecordNothing(g0, Fetched(fetch), false);
        case Some(dependencies) =>
          assert Fetched(fetch)(startPackage) == Elems(dependencies);
          result := VisitFetchedDependencies(startPackage, dependencies, maxDepth, fetch, currentDepth, result);
      }
      MarkStep(g0, Fetched(fetch), visited, startPackage, result, maxDepth - currentDepth - 1, false);
    }

    /**
     * The loop of bfs_with_recursion over the fetched dependency names of
     * `startPackage` (already marked visited), in the order fetched.
     */
    method VisitFetchedDependencies(startPackage: Name, dependencies: seq<Name>, maxDepth: int,
                                    fetch: Name -> Option<seq<Name>>, currentDepth: int, visited: set<Name>)
      returns (result: set<Name>)
      requires currentDepth < maxDepth && startPackage in visited
      requires fetch(startPackage) == Some(dependencies)
      modifies this`graph
      decreases maxDepth - currentDepth, 0
      ensures visited <= result
      ensures currentDepth + 1 < maxDepth ==> Elems(dependencies) <= result
      ensures AllWithin(Fetched(fetch), startPackage, result - visited, maxDepth - currentDepth - 1)
      ensures graph == AddEdges(Record(old(graph), Fetched(fetch), result - visited, false),
                                startPackage, Elems(dependencies), false)
    {
      result := visited;
      ghost var g0 := graph;
      ghost var n := maxDepth - currentDepth - 1;
      RecordNothing(g0, Fetched(fetch), false);
      assert result - visited == {};
      assert Fetched(fetch)(startPackage) == Elems(dependencies);
      for i := 0 to |dependencies|
        invariant visited <= result
        invariant AllWithin(Fetched(fetch), startPackage, result - visited, n)
        invariant n > 0 ==> Elems(dependencies[..i]) <= result
        invariant graph == AddEdges(Record(g0, Fetched(fetch), result - visited, false),
                                    startPackage, Elems(dependencies[..i]), false)
      {
        var depName := dependencies[i];
        ghost var base := Record(g0, Fetched(fetch), result - visited, false);
        ElemsPrefix(dependencies, i);
        AddDependency(startPackage, depName);
        assert graph == AddEdges(base, startPackage, Elems(dependencies[..i + 1]), false) by {
          AddEdgesStep(base, startPackage, Elems(dependencies[..i]), depName, false);
        }
        if depName !in result {
          ghost var before := result;
          result := BfsWithRecursion(depName, maxDepth, fetch, currentDepth + 1, result);
          ChildStep(g0, Fetched(fetch), visited, startPackage, Elems(dependencies[..i + 1]), before, result,
                    depName, maxDepth - (currentDepth + 1) - 1, n, false);
        }
      }
      assert dependencies[..|dependencies|] == dependencies;
    }

    /** get_all_dependencies: the recorded adjacency map. */
    function GetAllDependencies(): (r: Graph)
      reads this
      ensures r == graph
    {
      graph
    }

    /** has_cycles: the same depth-first check as dependency_graph.py's. */
    function HasCycles(): (r: bool)
      reads this
      ensures r <==> Cycles.HasCycle(graph)
    {
      Cycles.HasCyclesCorrect(graph);
      Cycles.HasCycles(graph)
    }
  }
}
