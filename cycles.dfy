/**
 * has_cycles of both builders: a depth-first search from every key that
 * carries its own copy of the current path, proved to answer exactly
 * whether the recorded edge relation contains a directed cycle.
 */
module Cycles {
  import opened Graphs

  /**
   * The nested `dfs(node, path)`: true when `node` is on the current path,
   * false when it has no recorded edges, otherwise true when some neighbour
   * reports a cycle with the path extended by `node`. Each neighbour gets
   * its own copy of the path, so the outcome is the same for every
   * iteration order of the neighbour set.
   */
  function Dfs(g: Graph, node: Name, path: set<Name>): bool
    decreases |g.Keys - path|
  {
    if node in path then true
    else if node !in g then false
    else
      assert g.Keys - (path + {node}) == (g.Keys - path) - {node};
      exists nb :: nb in g[node] && Dfs(g, nb, path + {node})
  }

  /** `has_cycles()`: some key starts a search that reports a cycle. */
  function HasCycles(g: Graph): bool
  {
    exists node :: node in g && Dfs(g, node, {})
  }

  /** `w` follows recorded edges from each element to the next. */
  ghost predicate IsWalk(g: Graph, w: seq<Name>)
  {
    forall i :: 0 <= i < |w| - 1 ==> w[i] in g && w[i + 1] in g[w[i]]
  }

  /** The recorded edge relation contains a directed cycle (a self-loop included). */
  ghost predicate HasCycle(g: Graph)
  {
    exists w :: IsWalk(g, w) && |w| >= 2 && w[0] == w[|w| - 1]
  }

  /** A walk stays a walk from any later position on. */
  lemma WalkSuffix(g: Graph, w: seq<Name>, j: nat)
    requires IsWalk(g, w) && j <= |w|
    ensures IsWalk(g, w[j..])
  {
    var c := w[j..];
    forall i | 0 <= i < |c| - 1
      ensures c[i] in g && c[i + 1] in g[c[i]]
    {
      assert c[i] == w[j + i] && c[i + 1] == w[j + i + 1];
    }
  }

  /** A walk ending in a key extends by an edge out of that key. */
  lemma WalkExtend(g: Graph, w: seq<Name>, nb: Name)
    requires IsWalk(g, w) && |w| > 0 && w[|w| - 1] in g && nb in g[w[|w| - 1]]
    ensures IsWalk(g, w + [nb])
  {
    var c := w + [nb];
    forall i | 0 <= i < |c| - 1
      ensures c[i] in g && c[i + 1] in g[c[i]]
    {
      if i < |w| - 1 {
        assert c[i] == w[i] && c[i + 1] == w[i + 1];
      }
    }
  }

  /** Putting a key on the path leaves fewer keys off it: the search's termination measure. */
  lemma PathGrows(g: Graph, path: set<Name>, node: Name)
    requires node in g && node !in path
    ensures |g.Keys - (path + {node})| < |g.Keys - path|
  {
    assert g.Keys - (path + {node}) == (g.Keys - path) - {node};
  }

  /** A search that reports a cycle has found one: the path to `node` closes on itself. */
  lemma {:induction false} DfsSound(g: Graph, w: seq<Name>, node: Name)
    requires IsWalk(g, w + [node])
    requires Dfs(g, node, Elems(w))
    ensures HasCycle(g)
    decreases |g.Keys - Elems(w)|
  {
    if node in w {
      ClosedWalk(g, w, node);
    } else {
      var nb :| nb in g[node] && Dfs(g, nb, Elems(w) + {node});
      ElemsAppend(w, node);
      PathGrows(g, Elems(w), node);
      WalkExtend(g, w + [node], nb);
      DfsSound(g, w + [node], nb);
    }
  }

  /** A walk that returns to a name already on it contains a cycle. */
  lemma ClosedWalk(g: Graph, w: seq<Name>, node: Name)
    requires IsWalk(g, w + [node]) && node in w
    ensures HasCycle(g)
  {
    var wn := w + [node];
    var j :| 0 <= j < |w| && w[j] == node;
    WalkSuffix(g, wn, j);
    var c := wn[j..];
    assert c[0] == node && c[|c| - 1] == node;
  }

  /** Following a cycle `c` from position `i`, with the earlier positions on the path, reports it. */
  lemma {:induction false} DfsFindsCycle(g: Graph, c: seq<Name>, i: nat)
    requires IsWalk(g, c) && |c| >= 2 && c[0] == c[|c| - 1]
    requires i < |c|
    ensures Dfs(g, c[i], Elems(c[..i]))
    decreases |c| - i
  {
    if c[i] !in Elems(c[..i]) {
      DfsFindsCycle(g, c, i + 1);
      assert c[..i + 1] == c[..i] + [c[i]];
      assert Elems(c[..i + 1]) == Elems(c[..i]) + {c[i]};
      assert c[i] in g && c[i + 1] in g[c[i]];
    }
  }

  /** has_cycles answers exactly whether the recorded edges contain a directed cycle. */
  lemma HasCyclesCorrect(g: Graph)
    ensures HasCycles(g) <==> HasCycle(g)
  {
    if HasCycles(g) {
      var node :| node in g && Dfs(g, node, {});
      assert Elems([]) == {};
      assert IsWalk(g, [] + [node]);
      DfsSound(g, [], node);
    }
    if HasCycle(g) {
      var c :| IsWalk(g, c) && |c| >= 2 && c[0] == c[|c| - 1];
      DfsFindsCycle(g, c, 0);
      assert c[..0] == [] && Elems(c[..0]) == {};
      assert c[0] in g;
    }
  }

  /** A self-dependency is a cycle. */
  lemma SelfLoopIsCycle(g: Graph, p: Name)
    requires p in g && p in g[p]
    ensures HasCycles(g)
  {
    assert IsWalk(g, [p, p]);
    HasCyclesCorrect(g);
  }

  /**
   * A ranking that strictly decreases along every recorded edge rules out a
   * cycle: the certificate for an acyclic graph.
   */
  lemma RankedIsAcyclic(g: Graph, rank: Name -> nat)
    requires forall p, q :: p in g && q in g[p] ==> rank(q) < rank(p)
    ensures !HasCycles(g)
  {
    HasCyclesCorrect(g);
    if HasCycle(g) {
      var c :| IsWalk(g, c) && |c| >= 2 && c[0] == c[|c| - 1];
      RankDecreasesAlongWalk(g, rank, c, |c| - 1);
    }
  }

  lemma {:induction false} RankDecreasesAlongWalk(g: Graph, rank: Name -> nat, w: seq<Name>, j: nat)
    requires forall p, q :: p in g && q in g[p] ==> rank(q) < rank(p)
    requires IsWalk(g, w) && 0 < j < |w|
    ensures rank(w[j]) < rank(w[0])
  {
    assert w[j - 1] in g && w[j] in g[w[j - 1]];
    if j > 1 {
      RankDecreasesAlongWalk(g, rank, w, j - 1);
    }
  }
}
