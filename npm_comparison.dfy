/**
 * npm_comparison.py: the two pure helpers of the comparator, the extraction
 * of an install order from the JSON that `npm install --json` prints, and
 * the comparison of two orders.
 */
module NpmComparison {
  import opened Graphs

  /**
   * The part of a JSON object of npm's output that the extraction reads:
   * whether it has a "dependencies" key and, if so, that object's entries
   * in their order. Other keys (version, resolved, ...) are not modelled.
   */
  datatype PackageInfo = NoDependencies | Dependencies(entries: seq<Entry>)

  /** One `name: info` pair of a "dependencies" object. */
  datatype Entry = Entry(name: Name, info: PackageInfo)

  /** Every name of `es` in pre-order: an entry's name, then its subtree, then the next entry. */
  function Walk(es: seq<Entry>): seq<Name>
    decreases es
  {
    if es == [] then [] else EntryWalk(es[0]) + Walk(es[1..])
  }

  function EntryWalk(e: Entry): seq<Name>
    decreases e
  {
    [e.name] + InfoWalk(e.info)
  }

  function InfoWalk(info: PackageInfo): seq<Name>
    decreases info
  {
    match info
    case NoDependencies => []
    case Dependencies(es) => Walk(es)
  }

  /** `order` followed by each name of `names` that is not already present, in turn. */
  function Extend(order: seq<Name>, names: seq<Name>): seq<Name>
    decreases |names|
  {
    if names == [] then order
    else Extend(if names[0] in order then order else order + [names[0]], names[1..])
  }

  /** The install order the extraction computes from npm's output. */
  function InstallOrder(npmOutput: PackageInfo): seq<Name>
  {
    Extend([], InfoWalk(npmOutput))
  }

  /** No name occurs twice. */
  predicate NoDuplicates(s: seq<Name>)
  {
    forall i, j :: 0 <= i < j < |s| ==> s[i] != s[j]
  }

  /**
   * Keep-first filter defined position by position: the element at each
   * position is kept exactly when it does not occur earlier.
   */
  function FirstOccurrences(names: seq<Name>): seq<Name>
    decreases |names|
  {
    if names == [] then []
    else
      var init := names[..|names| - 1];
      var last := names[|names| - 1];
      FirstOccurrences(init) + (if last in init then [] else [last])
  }

  /** `x` is the name of an entry of `es` at any nesting depth. */
  ghost predicate OccursIn(x: Name, es: seq<Entry>)
    decreases es
  {
    exists i :: 0 <= i < |es| && (es[i].name == x || OccursInInfo(x, es[i].info))
  }

  ghost predicate OccursInInfo(x: Name, info: PackageInfo)
    decreases info
  {
    match info
    case NoDependencies => false
    case Dependencies(es) => OccursIn(x, es)
  }

  /**
   * extract_from_deps: walks the entries of one "dependencies" object in
   * order, appending each name not yet in `order` and descending into the
   * entry's own "dependencies" whether or not its name was new. `parent` is
   * the object holding `deps`, which the recursion descends through.
   */
  method ExtractFromDeps(deps: seq<Entry>, order: seq<Name>, ghost parent: PackageInfo)
    returns (result: seq<Name>)
    requires parent == Dependencies(deps)
    decreases parent
    ensures result == Extend(order, Walk(deps))
  {
    result := order;
    for i := 0 to |deps|
      invariant result == Extend(order, Walk(deps[..i]))
    {
      var e := deps[i];
      WalkStep(deps, i);
      ExtendStep(order, Walk(deps[..i]), e.name, InfoWalk(e.info));
      ExtendOne(result, e.name);
      if e.name !in result {
        result := result + [e.name];
      }
      match e.info {
        case NoDependencies =>
        case Dependencies(children) =>
          result := ExtractFromDeps(children, result, e.info);
      }
    }
    assert deps[..|deps|] == deps;
  }

  /**
   * _extract_install_order: the first-occurrence names of a pre-order walk
   * of npm_output["dependencies"], or nothing when that key is absent.
   */
  method ExtractInstallOrder(npmOutput: PackageInfo) returns (order: seq<Name>)
    ensures order == InstallOrder(npmOutput)
    ensures NoDuplicates(order)
    ensures forall x :: x in order <==> OccursInInfo(x, npmOutput)
    ensures npmOutput == NoDependencies ==> order == []
  {
    order := [];
    if npmOutput.Dependencies? {
      order := ExtractFromDeps(npmOutput.entries, order, npmOutput);
    }
    InstallOrderProperties(npmOutput);
  }

  /** The documented properties of the install order. */
  lemma InstallOrderProperties(npmOutput: PackageInfo)
    ensures NoDuplicates(InstallOrder(npmOutput))
    ensures forall x :: x in InstallOrder(npmOutput) <==> OccursInInfo(x, npmOutput)
    ensures InstallOrder(npmOutput) == FirstOccurrences(InfoWalk(npmOutput))
  {
    var names := InfoWalk(npmOutput);
    ExtendNoDuplicates([], names);
    forall x
      ensures x in InstallOrder(npmOutput) <==> OccursInInfo(x, npmOutput)
    {
      ExtendMembers([], names, x);
      InfoWalkOccurs(x, npmOutput);
    }
    ExtendIsFirstOccurrences(names);
  }

  lemma {:induction false} WalkAppend(a: seq<Entry>, b: seq<Entry>)
    ensures Walk(a + b) == Walk(a) + Walk(b)
    decreases |a|
  {
    if a == [] {
      assert a + b == b;
    } else {
      assert (a + b)[1..] == a[1..] + b;
      WalkAppend(a[1..], b);
    }
  }

  /** The walk of one more entry. */
  lemma WalkStep(deps: seq<Entry>, i: int)
    requires 0 <= i < |deps|
    ensures Walk(deps[..i + 1]) == Walk(deps[..i]) + [deps[i].name] + InfoWalk(deps[i].info)
  {
    assert deps[..i + 1] == deps[..i] + [deps[i]];
    WalkAppend(deps[..i], [deps[i]]);
    assert [deps[i]][1..] == [];
  }

  /** Extending by one name adds it only when it is new. */
  lemma ExtendOne(order: seq<Name>, x: Name)
    ensures Extend(order, [x]) == if x in order then order else order + [x]
  {
    assert [x][1..] == [];
  }

  /** Extending by a name and a walk after `names` is three extensions in turn. */
  lemma ExtendStep(order: seq<Name>, names: seq<Name>, x: Name, rest: seq<Name>)
    ensures Extend(order, names + [x] + rest) == Extend(Extend(Extend(order, names), [x]), rest)
  {
    ExtendAppend(order, names + [x], rest);
    ExtendAppend(order, names, [x]);
  }

  lemma {:induction false} ExtendAppend(order: seq<Name>, a: seq<Name>, b: seq<Name>)
    ensures Extend(order, a + b) == Extend(Extend(order, a), b)
    decreases |a|
  {
    if a == [] {
      assert a + b == b;
    } else {
      assert (a + b)[1..] == a[1..] + b;
      ExtendAppend(if a[0] in order then order else order + [a[0]], a[1..], b);
    }
  }

  /** Extending never repeats a name when `order` has none repeated. */
  lemma {:induction false} ExtendNoDuplicates(order: seq<Name>, names: seq<Name>)
    requires NoDuplicates(order)
    ensures NoDuplicates(Extend(order, names))
    decreases |names|
  {
    if names != [] {
      var next := if names[0] in order then order else order + [names[0]];
      ExtendNoDuplicates(next, names[1..]);
    }
  }

  /** Extending keeps `order` and adds exactly the names of `names`. */
  lemma {:induction false} ExtendMembers(order: seq<Name>, names: seq<Name>, x: Name)
    ensures x in Extend(order, names) <==> x in order || x in names
    decreases |names|
  {
    if names != [] {
      var next := if names[0] in order then order else order + [names[0]];
      ExtendMembers(next, names[1..], x);
      assert names == [names[0]] + names[1..];
    }
  }

  /** `order` is a prefix of any extension of it. */
  lemma {:induction false} ExtendPrefix(order: seq<Name>, names: seq<Name>)
    ensures |order| <= |Extend(order, names)| && Extend(order, names)[..|order|] == order
    decreases |names|
  {
    if names != [] {
      var next := if names[0] in order then order else order + [names[0]];
      ExtendPrefix(next, names[1..]);
      assert next[..|order|] == order;
    }
  }

  /** The extraction from nothing is the position-wise keep-first filter. */
  lemma {:induction false} ExtendIsFirstOccurrences(names: seq<Name>)
    ensures Extend([], names) == FirstOccurrences(names)
    decreases |names|
  {
    if names != [] {
      var init := names[..|names| - 1];
      var last := names[|names| - 1];
      assert names == init + [last];
      ExtendIsFirstOccurrences(init);
      ExtendAppend([], init, [last]);
      ExtendMembers([], init, last);
    }
  }

  /** A name is walked exactly when it occurs at some depth. */
  lemma {:induction false} WalkOccurs(x: Name, es: seq<Entry>)
    ensures x in Walk(es) <==> OccursIn(x, es)
    decreases es
  {
    if es != [] {
      InfoWalkOccurs(x, es[0].info);
      WalkOccurs(x, es[1..]);
      if OccursIn(x, es) {
        var i :| 0 <= i < |es| && (es[i].name == x || OccursInInfo(x, es[i].info));
        if i > 0 {
          assert es[1..][i - 1] == es[i];
        }
      }
      if OccursIn(x, es[1..]) {
        var i :| 0 <= i < |es[1..]| && (es[1..][i].name == x || OccursInInfo(x, es[1..][i].info));
        assert es[i + 1] == es[1..][i];
      }
    }
  }

  lemma {:induction false} InfoWalkOccurs(x: Name, info: PackageInfo)
    ensures x in InfoWalk(info) <==> OccursInInfo(x, info)
    decreases info
  {
    match info
    case NoDependencies =>
    case Dependencies(es) => WalkOccurs(x, es);
  }

  /** The result of compare_orders. */
  datatype Comparison = Comparison(commonPackages: set<Name>, onlyInOurOrder: set<Name>,
                                   onlyInNpmOrder: set<Name>, orderMatches: bool,
                                   ourOrderLength: nat, npmOrderLength: nat)

  /**
   * compare_orders: the set algebra of the two orders' names, whether the
   * orders are the same sequence, and the two list lengths.
   */
  function CompareOrders(ourOrder: seq<Name>, npmOrder: seq<Name>): (c: Comparison)
    ensures forall x :: x in c.commonPackages <==> x in ourOrder && x in npmOrder
    ensures forall x :: x in c.onlyInOurOrder <==> x in ourOrder && x !in npmOrder
    ensures forall x :: x in c.onlyInNpmOrder <==> x in npmOrder && x !in ourOrder
    ensures c.orderMatches <==> ourOrder == npmOrder
    ensures c.ourOrderLength == |ourOrder| && c.npmOrderLength == |npmOrder|
  {
    var ourSet := Elems(ourOrder);
    var npmSet := Elems(npmOrder);
    Comparison(ourSet * npmSet, ourSet - npmSet, npmSet - ourSet, ourOrder == npmOrder,
               |ourOrder|, |npmOrder|)
  }

  /** The three name sets are pairwise disjoint, and the common and our-only ones make up our names. */
  lemma ComparisonPartition(ourOrder: seq<Name>, npmOrder: seq<Name>)
    ensures CompareOrders(ourOrder, npmOrder).commonPackages !! CompareOrders(ourOrder, npmOrder).onlyInOurOrder
    ensures CompareOrders(ourOrder, npmOrder).commonPackages !! CompareOrders(ourOrder, npmOrder).onlyInNpmOrder
    ensures CompareOrders(ourOrder, npmOrder).onlyInOurOrder !! CompareOrders(ourOrder, npmOrder).onlyInNpmOrder
    ensures CompareOrders(ourOrder, npmOrder).commonPackages + CompareOrders(ourOrder, npmOrder).onlyInOurOrder
         == Elems(ourOrder)
    ensures CompareOrders(ourOrder, npmOrder).commonPackages + CompareOrders(ourOrder, npmOrder).onlyInNpmOrder
         == Elems(npmOrder)
  {
  }

  /** Matching orders have nothing exclusive and equal lengths. */
  lemma MatchingOrders(ourOrder: seq<Name>, npmOrder: seq<Name>)
    requires CompareOrders(ourOrder, npmOrder).orderMatches
    ensures CompareOrders(ourOrder, npmOrder).onlyInOurOrder == {}
    ensures CompareOrders(ourOrder, npmOrder).onlyInNpmOrder == {}
    ensures CompareOrders(ourOrder, npmOrder).ourOrderLength == CompareOrders(ourOrder, npmOrder).npmOrderLength
  {
  }

  /**
   * The lengths are list lengths: they bound the number of distinct names
   * and equal it exactly when the list has no repeated name.
   */
  lemma LengthCountsDuplicates(ourOrder: seq<Name>, npmOrder: seq<Name>)
    ensures |CompareOrders(ourOrder, npmOrder).commonPackages| + |CompareOrders(ourOrder, npmOrder).onlyInOurOrder|
         <= CompareOrders(ourOrder, npmOrder).ourOrderLength
    ensures (|CompareOrders(ourOrder, npmOrder).commonPackages| + |CompareOrders(ourOrder, npmOrder).onlyInOurOrder|
             == CompareOrders(ourOrder, npmOrder).ourOrderLength) <==> NoDuplicates(ourOrder)
  {
    var c := CompareOrders(ourOrder, npmOrder);
    ComparisonPartition(ourOrder, npmOrder);
    assert |c.commonPackages + c.onlyInOurOrder| == |c.commonPackages| + |c.onlyInOurOrder|;
    DistinctCount(ourOrder);
  }

  /** A list has at most as many distinct names as elements, exactly as many when none repeats. */
  lemma {:induction false} DistinctCount(s: seq<Name>)
    ensures |Elems(s)| <= |s|
    ensures |Elems(s)| == |s| <==> NoDuplicates(s)
    decreases |s|
  {
    if s != [] {
      var init := s[..|s| - 1];
      var last := s[|s| - 1];
      assert s == init + [last];
      ElemsAppend(init, last);
      DistinctCount(init);
      if last in init {
        assert Elems(s) == Elems(init);
        var k :| 0 <= k < |init| && init[k] == last;
        assert s[k] == s[|s| - 1];
      } else {
        assert last !in Elems(init);
        if NoDuplicates(init) {
          forall i, j | 0 <= i < j < |s|
            ensures s[i] != s[j]
          {
            if j < |s| - 1 {
              assert s[i] == init[i] && s[j] == init[j];
            } else {
              assert s[i] == init[i];
            }
          }
        }
        if NoDuplicates(s) {
          forall i, j | 0 <= i < j < |init|
            ensures init[i] != init[j]
          {
            assert init[i] == s[i] && init[j] == s[j];
          }
        }
      }
    }
  }
}
