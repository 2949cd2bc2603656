/**
 * The adjacency structure shared by both dependency-graph builders
 * (dependency_graph.py and graph.py): names, the graph map, what
 * add_dependency does to it, and what a whole traversal leaves in it.
 */
module Graphs {
  import opened Wrappers

  /** A package is identified by its name alone; versions are not part of a node. */
  type Name = string

  /** The builder's `graph: Dict[str, Set[str]]`. */
  type Graph = map<Name, set<Name>>

  /**
   * A metadata source after its failures are handled: the direct dependency
   * names the traversal iterates over for a package (empty when the package
   * is unknown or its fetch failed).
   */
  type Source = Name -> set<Name>

  /** `graph.get(p, set())`. */
  function Get(g: Graph, p: Name): set<Name>
  {
    if p in g then g[p] else {}
  }

  /**
   * The edge targets add_dependency stores for the dependency names `ds`:
   * with `filterEmpty` (dependency_graph.py) the empty name is dropped,
   * without it (graph.py) every name is kept.
   */
  function Kept(ds: set<Name>, filterEmpty: bool): set<Name>
  {
    if filterEmpty then ds - {""} else ds
  }

  /** add_dependency(p, d): makes `p` a key and records the edge p -> d unless it is filtered. */
  function AddEdge(g: Graph, p: Name, d: Name, filterEmpty: bool): Graph
  {
    g[p := Get(g, p) + Kept({d}, filterEmpty)]
  }

  /**
   * After add_dependency(p, d), `p` is a key whose set is its old set plus
   * `d` (unless `d` is an empty name that is filtered); every other key is
   * untouched.
   */
  lemma AddEdgeShape(g: Graph, p: Name, d: Name, filterEmpty: bool)
    ensures p in AddEdge(g, p, d, filterEmpty)
    ensures forall x :: x in AddEdge(g, p, d, filterEmpty)[p] <==> x in Get(g, p) || (x == d && (d != "" || !filterEmpty))
    ensures forall k :: k != p ==> (k in AddEdge(g, p, d, filterEmpty) <==> k in g)
    ensures forall k :: k in g && k != p ==> AddEdge(g, p, d, filterEmpty)[k] == g[k]
  {
  }

  /** add_dependency(p, d) for every d in `es`, in any order; nothing at all when `es` is empty. */
  function AddEdges(g: Graph, p: Name, es: set<Name>, filterEmpty: bool): Graph
  {
    if es == {} then g else g[p := Get(g, p) + Kept(es, filterEmpty)]
  }

  /**
   * The graph after each node of `vs` has been expanded once against `src`:
   * a node with at least one dependency name becomes a key and gains an edge
   * to each of them that add_dependency keeps; a node with no dependency
   * names is not added; every other key is untouched.
   */
  function Record(g: Graph, src: Source, vs: set<Name>, filterEmpty: bool): Graph
  {
    map k | k in g.Keys + vs && (k in g || src(k) != {}) ::
      Get(g, k) + (if k in vs then Kept(src(k), filterEmpty) else {})
  }

  /**
   * What an expansion leaves: the keys are the old ones plus the expanded
   * nodes that have dependency names, keys outside `vs` are untouched, and
   * an expanded node gains exactly the kept edges to its dependency names.
   */
  lemma RecordShape(g: Graph, src: Source, vs: set<Name>, filterEmpty: bool)
    ensures forall k :: k in Record(g, src, vs, filterEmpty) <==> k in g || (k in vs && src(k) != {})
    ensures forall k :: k in g && k !in vs ==> Record(g, src, vs, filterEmpty)[k] == g[k]
    ensures forall k, d :: k in vs && d in src(k) ==>
              (d in Get(Record(g, src, vs, filterEmpty), k) <==> d != "" || !filterEmpty || d in Get(g, k))
    ensures forall k, d :: k in vs && d !in src(k) ==>
              (d in Get(Record(g, src, vs, filterEmpty), k) <==> d in Get(g, k))
  {
    forall k | k in vs
      ensures Get(Record(g, src, vs, filterEmpty), k) == Get(g, k) + Kept(src(k), filterEmpty)
    {
      RecordAt(g, src, vs, filterEmpty, k);
    }
  }

  /** No recorded edge leads to the empty name (what dependency_graph.py's guard keeps). */
  ghost predicate NoEmptyTargets(g: Graph)
  {
    forall p :: p in g ==> "" !in g[p]
  }

  /** The names of a sequence, as a set. */
  function Elems(w: seq<Name>): set<Name>
  {
    set x | x in w
  }

  lemma ElemsAppend(w: seq<Name>, x: Name)
    ensures Elems(w + [x]) == Elems(w) + {x}
  {
  }

  /** Extending a prefix of `w` by one element adds that element's name. */
  lemma ElemsPrefix(w: seq<Name>, i: int)
    requires 0 <= i < |w|
    ensures Elems(w[..i + 1]) == Elems(w[..i]) + {w[i]}
  {
    assert w[..i + 1] == w[..i] + [w[i]];
    ElemsAppend(w[..i], w[i]);
  }

  /** The in-memory fixture `test_repo` as a source: `test_repo.get(name, set())`. */
  function Fixture(repo: map<Name, set<Name>>): Source
  {
    v => Get(repo, v)
  }

  /** The names a fetch yields: the keys of the fetched dependency object, or none when it failed. */
  function FetchedNames(fetch: Name -> Option<seq<Name>>, v: Name): set<Name>
  {
    match fetch(v)
    case None => {}
    case Some(ds) => Elems(ds)
  }

  /** A fetching metadata source viewed as a Source. */
  function Fetched(fetch: Name -> Option<seq<Name>>): Source
  {
    v => FetchedNames(fetch, v)
  }

  /** `t` is reached from `s` along at most `n` dependency steps of `src` (never when `n` < 0). */
  ghost predicate ReachableWithin(src: Source, s: Name, t: Name, n: int)
    decreases if n < 0 then 0 else n
  {
    n >= 0 && (t == s || (n > 0 && exists d :: d in src(s) && ReachableWithin(src, d, t, n - 1)))
  }

  /** Every name of `vs` is reachable from `s` within `n` steps. */
  ghost predicate AllWithin(src: Source, s: Name, vs: set<Name>, n: int)
  {
    forall v :: v in vs ==> ReachableWithin(src, s, v, n)
  }

  /** One dependency step in front of a walk of at most `n - 1` steps. */
  lemma ReachStep(src: Source, s: Name, d: Name, t: Name, m: int, n: int)
    requires d in src(s) && ReachableWithin(src, d, t, m) && n == m + 1
    ensures ReachableWithin(src, s, t, n)
  {
    assert n - 1 == m;
  }

  /** add_dependency is idempotent. */
  lemma AddEdgeIdempotent(g: Graph, p: Name, d: Name, filterEmpty: bool)
    ensures AddEdge(AddEdge(g, p, d, filterEmpty), p, d, filterEmpty) == AddEdge(g, p, d, filterEmpty)
  {
  }

  /** The two add_dependency variants agree except on the empty dependency name. */
  lemma AddEdgeVariants(g: Graph, p: Name, d: Name)
    ensures d != "" ==> AddEdge(g, p, d, true) == AddEdge(g, p, d, false)
    ensures d == "" ==> AddEdge(g, p, d, true) == g[p := Get(g, p)]
    ensures d == "" ==> "" in AddEdge(g, p, d, false)[p]
  {
    if d != "" {
      assert Kept({d}, true) == {d} == Kept({d}, false);
    } else {
      assert Kept({d}, true) == {};
      assert Get(g, p) + Kept({d}, true) == Get(g, p);
    }
  }

  /** The filtering variant never records an edge to the empty name. */
  lemma AddEdgeKeepsNoEmptyTargets(g: Graph, p: Name, d: Name)
    requires NoEmptyTargets(g)
    ensures NoEmptyTargets(AddEdge(g, p, d, true))
  {
  }

  /** Neither does a filtering traversal. */
  lemma RecordKeepsNoEmptyTargets(g: Graph, src: Source, vs: set<Name>)
    requires NoEmptyTargets(g)
    ensures NoEmptyTargets(Record(g, src, vs, true))
  {
    var r := Record(g, src, vs, true);
    forall p | p in r
      ensures "" !in r[p]
    {
      RecordAt(g, src, vs, true, p);
    }
  }

  /** One more add_dependency call at `p` extends the set of processed names. */
  lemma AddEdgesStep(g: Graph, p: Name, es: set<Name>, d: Name, filterEmpty: bool)
    ensures AddEdge(AddEdges(g, p, es, filterEmpty), p, d, filterEmpty) == AddEdges(g, p, es + {d}, filterEmpty)
  {
    var lhs := AddEdge(AddEdges(g, p, es, filterEmpty), p, d, filterEmpty);
    var rhs := AddEdges(g, p, es + {d}, filterEmpty);
    assert lhs.Keys == rhs.Keys;
    assert lhs[p] == rhs[p];
  }

  /** What `Record` leaves at one name, whether or not that name is a key. */
  lemma RecordAt(g: Graph, src: Source, vs: set<Name>, filterEmpty: bool, k: Name)
    ensures k in Record(g, src, vs, filterEmpty) <==> k in g || (k in vs && src(k) != {})
    ensures Get(Record(g, src, vs, filterEmpty), k) == Get(g, k) + (if k in vs then Kept(src(k), filterEmpty) else {})
  {
    if k in vs && k !in g && src(k) == {} {
      assert Kept(src(k), filterEmpty) == {};
    }
  }

  /** What `AddEdges` leaves at one name, whether or not that name is a key. */
  lemma AddEdgesAt(g: Graph, p: Name, es: set<Name>, filterEmpty: bool, k: Name)
    ensures k in AddEdges(g, p, es, filterEmpty) <==> k in g || (k == p && es != {})
    ensures Get(AddEdges(g, p, es, filterEmpty), k) == Get(g, k) + (if k == p then Kept(es, filterEmpty) else {})
  {
    if es == {} {
      assert Kept(es, filterEmpty) == {};
    }
  }

  /** Expanding nothing changes nothing. */
  lemma RecordNothing(g: Graph, src: Source, filterEmpty: bool)
    ensures Record(g, src, {}, filterEmpty) == g
  {
    var r := Record(g, src, {}, filterEmpty);
    assert r.Keys == g.Keys;
    forall k | k in r
      ensures r[k] == g[k]
    {
      RecordAt(g, src, {}, filterEmpty, k);
    }
  }

  /** Expanding one node is processing all of its dependency names at once. */
  lemma RecordSingle(g: Graph, src: Source, s: Name, filterEmpty: bool)
    ensures Record(g, src, {s}, filterEmpty) == AddEdges(g, s, src(s), filterEmpty)
  {
    var lhs := Record(g, src, {s}, filterEmpty);
    var rhs := AddEdges(g, s, src(s), filterEmpty);
    assert lhs.Keys == rhs.Keys;
    forall k | k in lhs
      ensures lhs[k] == rhs[k]
    {
      RecordAt(g, src, {s}, filterEmpty, k);
    }
  }

  /** Expanding `a` and then `b` is expanding `a + b`. */
  lemma RecordUnion(g: Graph, src: Source, a: set<Name>, b: set<Name>, filterEmpty: bool)
    ensures Record(Record(g, src, a, filterEmpty), src, b, filterEmpty) == Record(g, src, a + b, filterEmpty)
  {
    var lhs := Record(Record(g, src, a, filterEmpty), src, b, filterEmpty);
    var rhs := Record(g, src, a + b, filterEmpty);
    assert lhs.Keys == rhs.Keys;
    forall k | k in lhs
      ensures lhs[k] == rhs[k]
    {
      RecordAt(g, src, a, filterEmpty, k);
      RecordAt(Record(g, src, a, filterEmpty), src, b, filterEmpty, k);
      RecordAt(g, src, a + b, filterEmpty, k);
    }
  }

  /** Edges added at `s` commute with expansions of nodes other than `s`. */
  lemma RecordAddEdgesCommute(g: Graph, src: Source, w: set<Name>, s: Name, es: set<Name>, filterEmpty: bool)
    requires s !in w
    ensures Record(AddEdges(g, s, es, filterEmpty), src, w, filterEmpty)
         == AddEdges(Record(g, src, w, filterEmpty), s, es, filterEmpty)
  {
    var lhs := Record(AddEdges(g, s, es, filterEmpty), src, w, filterEmpty);
    var rhs := AddEdges(Record(g, src, w, filterEmpty), s, es, filterEmpty);
    forall k
      ensures (k in lhs <==> k in rhs) && Get(lhs, k) == Get(rhs, k)
    {
      RecordAt(AddEdges(g, s, es, filterEmpty), src, w, filterEmpty, k);
      AddEdgesAt(g, s, es, filterEmpty, k);
      RecordAt(g, src, w, filterEmpty, k);
      AddEdgesAt(Record(g, src, w, filterEmpty), s, es, filterEmpty, k);
    }
    assert lhs.Keys == rhs.Keys;
  }

  lemma ExpandChild(g: Graph, src: Source, w: set<Name>, s: Name, es: set<Name>, added: set<Name>, filterEmpty: bool)
    requires s !in added
    ensures Record(AddEdges(Record(g, src, w, filterEmpty), s, es, filterEmpty), src, added, filterEmpty)
         == AddEdges(Record(g, src, w + added, filterEmpty), s, es, filterEmpty)
  {
    RecordAddEdgesCommute(Record(g, src, w, filterEmpty), src, added, s, es, filterEmpty);
    RecordUnion(g, src, w, added, filterEmpty);
  }

  /** Once every dependency name of `s` is processed, `s` itself counts as expanded. */
  lemma ExpandFinish(g: Graph, src: Source, w: set<Name>, s: Name, filterEmpty: bool)
    ensures AddEdges(Record(g, src, w, filterEmpty), s, src(s), filterEmpty) == Record(g, src, w + {s}, filterEmpty)
  {
    RecordSingle(Record(g, src, w, filterEmpty), src, s, filterEmpty);
    RecordUnion(g, src, w, {s}, filterEmpty);
  }

  /** Nodes newly reached through the dependency `d` of `s` are within one more step of `s`. */
  lemma ReachThrough(src: Source, s: Name, d: Name, visited: set<Name>, before: set<Name>, after: set<Name>, m: int, n: int)
    requires d in src(s) && n == m + 1
    requires AllWithin(src, s, before - visited, n)
    requires AllWithin(src, d, after - before, m)
    ensures AllWithin(src, s, after - visited, n)
  {
    forall v | v in after - visited
      ensures ReachableWithin(src, s, v, n)
    {
      if v !in before {
        ReachStep(src, s, d, v, m, n);
      }
    }
  }

  /**
   * The state after a dependency `d` of `s` has been expanded by a recursive
   * call that grew the visited set from `before` to `after`: the nodes it
   * expanded join the expanded part, and they lie within depth `n` of `s`.
   */
  lemma ChildStep(g: Graph, src: Source, visited: set<Name>, s: Name, es: set<Name>,
                  before: set<Name>, after: set<Name>, d: Name, m: int, n: int, filterEmpty: bool)
    requires s in visited && visited <= before && before <= after
    requires d in src(s) && n == m + 1
    requires AllWithin(src, s, before - visited, n)
    requires AllWithin(src, d, after - before, m)
    ensures Record(AddEdges(Record(g, src, before - visited, filterEmpty), s, es, filterEmpty),
                   src, after - before, filterEmpty)
         == AddEdges(Record(g, src, after - visited, filterEmpty), s, es, filterEmpty)
    ensures AllWithin(src, s, after - visited, n)
  {
    ExpandChild(g, src, before - visited, s, es, after - before, filterEmpty);
    assert (before - visited) + (after - before) == after - visited;
    ReachThrough(src, s, d, visited, before, after, m, n);
  }

  /**
   * Marking `s` visited and then expanding all of its dependency names is
   * expanding `s` itself, and `s` is within any depth of itself.
   */
  lemma MarkStep(g: Graph, src: Source, visited: set<Name>, s: Name, after: set<Name>, n: int, filterEmpty: bool)
    requires s !in visited && visited + {s} <= after && n >= 0
    requires AllWithin(src, s, after - (visited + {s}), n)
    ensures AddEdges(Record(g, src, after - (visited + {s}), filterEmpty), s, src(s), filterEmpty)
         == Record(g, src, after - visited, filterEmpty)
    ensures AllWithin(src, s, after - visited, n)
  {
    ExpandFinish(g, src, after - (visited + {s}), s, filterEmpty);
    assert after - (visited + {s}) + {s} == after - visited;
    assert ReachableWithin(src, s, s, n);
  }

  /**
   * Reachability never leaves a set of names that is closed under the
   * source's dependencies: an upper bound for what a traversal can visit.
   */
  lemma {:induction false} ReachStaysInside(src: Source, names: set<Name>, s: Name, t: Name, n: int)
    requires s in names
    requires forall x :: x in names ==> src(x) <= names
    requires ReachableWithin(src, s, t, n)
    ensures t in names
    decreases if n < 0 then 0 else n
  {
    if t != s {
      var d :| d in src(s) && ReachableWithin(src, d, t, n - 1);
      ReachStaysInside(src, names, d, t, n - 1);
    }
  }

  /** Everything within reach of a closed set of names stays inside it. */
  lemma WithinClosed(src: Source, names: set<Name>, s: Name, vs: set<Name>, n: int)
    requires s in names
    requires forall x :: x in names ==> src(x) <= names
    requires AllWithin(src, s, vs, n)
    ensures vs <= names
  {
    forall v | v in vs
      ensures v in names
    {
      ReachStaysInside(src, names, s, v, n);
    }
  }

  /** A source that always fails (every fetch raises) records no edges. */
  lemma RecordSilentSource(g: Graph, src: Source, vs: set<Name>, filterEmpty: bool)
    requires forall v :: src(v) == {}
    ensures Record(g, src, vs, filterEmpty) == g
  {
    var r := Record(g, src, vs, filterEmpty);
    assert r.Keys == g.Keys;
    forall k | k in r
      ensures r[k] == g[k]
    {
      RecordAt(g, src, vs, filterEmpty, k);
      assert Kept(src(k), filterEmpty) == {};
    }
  }

  /** Nothing but the start is reachable through a source that always fails. */
  lemma {:induction false} ReachSilentSource(src: Source, s: Name, t: Name, n: int)
    requires forall v :: src(v) == {}
    requires ReachableWithin(src, s, t, n)
    ensures t == s
  {
    assert src(s) == {};
  }
}
