/**
 * `DependencyAnalyzer.analyze_dependencies`: one node per selector, then for every
 * pair `i < j` of elements the edges `target -> source` of the dependencies the
 * rules find.
 */
module Analyzer {
  import opened Wrappers
  import opened Models
  import opened GraphModel
  import opened Rules
  import opened Graph

  /** The keyword arguments `add_edge` receives for a dependency. */
  function DepAttrs(d: ElementDependency): EdgeAttrs {
    EdgeAttrs(TypeValue(d.depType), d.reason, Some(d.weight))
  }

  /** The triples `(target, source, attrs)` the dependencies become, in order. */
  function DepEdges(ds: seq<ElementDependency>): (r: seq<Edge>)
    ensures |r| == |ds|
    ensures forall k :: 0 <= k < |ds| ==> r[k] == Edge(ds[k].target, ds[k].source, DepAttrs(ds[k]))
  {
    if ds == [] then [] else DepEdges(ds[..|ds| - 1]) + [Edge(ds[|ds| - 1].target, ds[|ds| - 1].source, DepAttrs(ds[|ds| - 1]))]
  }

  /** What the rules find for an ordered pair of elements. */
  type Finder = (InteractiveElement, InteractiveElement) -> seq<ElementDependency>

  /** The finder of `analyze_dependencies`: `_detect_dependencies` on the given page. */
  function RuleFinder(page: Page): Finder {
    (e1: InteractiveElement, e2: InteractiveElement) => DetectDependencies(e1, e2, page)
  }

  /** The edges found for the pairs `(i, i + 1)` up to `(i, j - 1)`. */
  function RowEdges(es: seq<InteractiveElement>, found: Finder, i: nat, j: nat): seq<Edge>
    requires i < j <= |es|
    decreases j
  {
    if j == i + 1 then [] else RowEdges(es, found, i, j - 1) + DepEdges(found(es[i], es[j - 1]))
  }

  /** The edges found for all pairs whose first element comes before position `i`. */
  function PairEdges(es: seq<InteractiveElement>, found: Finder, i: nat): seq<Edge>
    requires i <= |es|
  {
    if i == 0 then [] else PairEdges(es, found, i - 1) + RowEdges(es, found, i - 1, |es|)
  }

  /** The node table after `add_node` for each of `es` in turn. */
  function NodesOf(es: seq<InteractiveElement>): NodeTable {
    if es == [] then NodeTable(map[], []) else WithNode(NodesOf(es[..|es| - 1]), es[|es| - 1].selector, es[|es| - 1])
  }

  /** The node table after `add_edge` for each triple of `edges` in turn. */
  function ApplyEdges(g: NodeTable, edges: seq<Edge>): (h: NodeTable)
    ensures h.order == g.order && h.entries.Keys == g.entries.Keys
    ensures forall w :: w in g.entries ==> h.entries[w].element == g.entries[w].element
  {
    if edges == [] then g
    else
      var h := ApplyEdges(g, edges[..|edges| - 1]);
      var e := edges[|edges| - 1];
      if e.from in h.entries && e.to in h.entries then WithEdge(h, e.from, e.to, e.attrs) else h
  }

  /** The selectors of `es`. */
  function Selectors(es: seq<InteractiveElement>): set<string> {
    set i | 0 <= i < |es| :: es[i].selector
  }

  /** One node per selector, and no edges yet. */
  lemma NodesOfShape(es: seq<InteractiveElement>)
    ensures WellFormed(NodesOf(es))
    ensures NodesOf(es).entries.Keys == Selectors(es)
    ensures forall a, b :: !HasOut(NodesOf(es), a, b)
  {
    NodesOfEdgeless(es);
    NodesOfKeys(es);
  }

  lemma {:induction false} NodesOfEdgeless(es: seq<InteractiveElement>)
    ensures WellFormed(NodesOf(es))
    ensures forall a, b :: !HasOut(NodesOf(es), a, b)
  {
    if es != [] {
      var init := es[..|es| - 1];
      var last := es[|es| - 1];
      NodesOfEdgeless(init);
      WithNodeWellFormed(NodesOf(init), last.selector, last);
    }
  }

  lemma {:induction false} NodesOfKeys(es: seq<InteractiveElement>)
    ensures NodesOf(es).entries.Keys == Selectors(es)
  {
    if es != [] {
      var init := es[..|es| - 1];
      var last := es[|es| - 1];
      assert es == init + [last];
      assert NodesOf(es) == WithNode(NodesOf(init), last.selector, last);
      NodesOfKeys(init);
      SelectorsPush(init, last);
    }
  }

  lemma SelectorsPush(es: seq<InteractiveElement>, e: InteractiveElement)
    ensures Selectors(es + [e]) == Selectors(es) + {e.selector}
  {
    var es' := es + [e];
    assert forall i :: 0 <= i < |es| ==> es'[i] == es[i];
    assert es'[|es|] == e;
    forall s | s in Selectors(es') ensures s in Selectors(es) + {e.selector} {
      var i :| 0 <= i < |es'| && es'[i].selector == s;
      if i < |es| {
        assert es[i].selector == s;
      }
    }
  }

  /** `es[i]` is the first element with selector `s`. */
  ghost predicate FirstWith(es: seq<InteractiveElement>, s: string, i: int) {
    0 <= i < |es| && es[i].selector == s && forall j :: 0 <= j < i ==> es[j].selector != s
  }

  lemma FirstWithPrefix(es: seq<InteractiveElement>, e: InteractiveElement, s: string, i: int)
    requires FirstWith(es, s, i)
    ensures FirstWith(es + [e], s, i) && (es + [e])[i] == es[i]
  {
  }

  /** Re-adding a selector keeps the first element: each node stores the first element with its selector. */
  lemma {:induction false} NodesOfKeepsFirst(es: seq<InteractiveElement>)
    ensures forall s :: s in NodesOf(es).entries ==> exists i :: FirstWith(es, s, i) && NodesOf(es).entries[s].element == es[i]
  {
    if es != [] {
      var init := es[..|es| - 1];
      var last := es[|es| - 1];
      assert es == init + [last];
      NodesOfKeepsFirst(init);
      NodesOfShape(init);
      forall s | s in NodesOf(es).entries
        ensures exists i :: FirstWith(es, s, i) && NodesOf(es).entries[s].element == es[i]
      {
        if s in NodesOf(init).entries {
          var i :| FirstWith(init, s, i) && NodesOf(init).entries[s].element == init[i];
          FirstWithPrefix(init, last, s, i);
        } else {
          assert s == last.selector;
          forall j | 0 <= j < |es| - 1
            ensures es[j].selector != s
          {
            assert init[j].selector in Selectors(init);
          }
          assert FirstWith(es, s, |es| - 1);
        }
      }
    }
  }

  /** Replaying edges keeps the table well formed, and adds exactly the triples whose endpoints are nodes. */
  lemma {:induction false} ApplyEdgesRelations(g: NodeTable, edges: seq<Edge>)
    requires WellFormed(g)
    ensures WellFormed(ApplyEdges(g, edges))
    ensures forall a, b :: HasOut(ApplyEdges(g, edges), a, b) <==>
      HasOut(g, a, b) || (a in g.entries && b in g.entries && Recorded(edges, a, b))
  {
    if edges != [] {
      var init := edges[..|edges| - 1];
      var e := edges[|edges| - 1];
      var h := ApplyEdges(g, init);
      ApplyEdgesRelations(g, init);
      RecordedPush(edges);
      if e.from in h.entries && e.to in h.entries {
        WithEdgeRelations(h, e.from, e.to, e.attrs);
        WithEdgeWellFormed(h, e.from, e.to, e.attrs);
      }
    }
  }

  /** The pairs recorded by a list are those of its prefix and the pair of its last edge. */
  lemma RecordedPush(edges: seq<Edge>)
    requires edges != []
    ensures forall a, b :: Recorded(edges, a, b) <==>
      Recorded(edges[..|edges| - 1], a, b) || (edges[|edges| - 1].from == a && edges[|edges| - 1].to == b)
  {
    var init := edges[..|edges| - 1];
    forall a, b
      ensures Recorded(edges, a, b) <==> Recorded(init, a, b) || (edges[|edges| - 1].from == a && edges[|edges| - 1].to == b)
    {
      if Recorded(edges, a, b) {
        var i :| 0 <= i < |edges| && edges[i].from == a && edges[i].to == b;
        if i < |init| {
          assert init[i] == edges[i];
        }
      }
      if Recorded(init, a, b) {
        var i :| 0 <= i < |init| && init[i].from == a && init[i].to == b;
        assert edges[i] == init[i];
      }
    }
  }

  lemma ApplyEdgesPush(g: NodeTable, edges: seq<Edge>, e: Edge)
    ensures ApplyEdges(g, edges + [e]) ==
      var h := ApplyEdges(g, edges);
      if e.from in h.entries && e.to in h.entries then WithEdge(h, e.from, e.to, e.attrs) else h
  {
    assert (edges + [e])[..|edges|] == edges;
  }

  /** What the analysis loops keep: the nodes of `base`, and exactly the edges found so far. */
  ghost predicate Built(graph: DependencyGraph, base: NodeTable, edges: seq<Edge>)
    reads graph
  {
    && graph.Valid()
    && graph.edges == edges
    && graph.nodes == ApplyEdges(base, edges)
  }

  /** Adding the edge of one dependency between two nodes keeps the graph built. */
  method AddDependency(graph: DependencyGraph, ghost base: NodeTable, ghost edges: seq<Edge>, d: ElementDependency)
    requires Built(graph, base, edges)
    requires d.target in base.entries && d.source in base.entries
    modifies graph
    ensures Built(graph, base, edges + [Edge(d.target, d.source, DepAttrs(d))])
  {
    graph.AddEdge(d.target, d.source, DepAttrs(d));
    ApplyEdgesPush(base, edges, Edge(d.target, d.source, DepAttrs(d)));
  }

  /**
   * `analyze_dependencies`: the graph has one node per selector (the first element
   * with it), and its edge list is the edges `target -> source` of the dependencies
   * found for the pairs `i < j`, in loop order, each also entered in both adjacency lists.
   */
  method AnalyzeDependencies(es: seq<InteractiveElement>, page: Page) returns (graph: DependencyGraph)
    ensures fresh(graph) && graph.Valid()
    ensures graph.edges == PairEdges(es, RuleFinder(page), |es|)
    ensures graph.nodes == ApplyEdges(NodesOf(es), PairEdges(es, RuleFinder(page), |es|))
  {
    ghost var base := NodesOf(es);
    NodesOfShape(es);
    graph := AddNodes(es);
    var found := RuleFinder(page);
    RulesJoinPair(page);
    for i := 0 to |es|
      invariant fresh(graph) && Built(graph, base, PairEdges(es, found, i))
    {
      AddRow(graph, base, PairEdges(es, found, i), es, found, i);
    }
  }

  /** The first loop of `analyze_dependencies`: one `add_node` per element. */
  method AddNodes(es: seq<InteractiveElement>) returns (graph: DependencyGraph)
    ensures fresh(graph) && Built(graph, NodesOf(es), [])
  {
    graph := new DependencyGraph();
    for i := 0 to |es|
      invariant fresh(graph) && graph.Valid() && graph.edges == []
      invariant graph.nodes == NodesOf(es[..i])
    {
      assert es[..i + 1][..i] == es[..i];
      graph.AddNode(es[i].selector, es[i]);
    }
    assert es[..|es|] == es;
  }

  /** The inner loop of `analyze_dependencies` for the pairs `(i, j)`, `j > i`. */
  method AddRow(graph: DependencyGraph, ghost base: NodeTable, ghost prefix: seq<Edge>, es: seq<InteractiveElement>, found: Finder, i: nat)
    requires i < |es|
    requires JoinsPair(found)
    requires base.entries.Keys == Selectors(es)
    requires Built(graph, base, prefix)
    modifies graph
    ensures Built(graph, base, prefix + RowEdges(es, found, i, |es|))
  {
    assert prefix + RowEdges(es, found, i, i + 1) == prefix;
    for j := i + 1 to |es|
      invariant Built(graph, base, prefix + RowEdges(es, found, i, j))
    {
      AddPairAt(graph, base, prefix, es, found, i, j);
    }
  }

  /** One pass of the inner loop: the dependencies of the pair `(i, j)`. */
  method AddPairAt(graph: DependencyGraph, ghost base: NodeTable, ghost prefix: seq<Edge>, es: seq<InteractiveElement>, found: Finder, i: nat, j: nat)
    requires i < j < |es|
    requires JoinsPair(found)
    requires base.entries.Keys == Selectors(es)
    requires Built(graph, base, prefix + RowEdges(es, found, i, j))
    modifies graph
    ensures Built(graph, base, prefix + RowEdges(es, found, i, j + 1))
  {
    var deps := found(es[i], es[j]);
    assert es[i].selector in Selectors(es) && es[j].selector in Selectors(es);
    RowStep(es, found, prefix, i, j);
    AddPair(graph, base, prefix + RowEdges(es, found, i, j), prefix + RowEdges(es, found, i, j + 1), deps, es[i].selector, es[j].selector);
  }

  lemma RowStep(es: seq<InteractiveElement>, found: Finder, prefix: seq<Edge>, i: nat, j: nat)
    requires i < j < |es|
    ensures prefix + RowEdges(es, found, i, j + 1) == (prefix + RowEdges(es, found, i, j)) + DepEdges(found(es[i], es[j]))
  {
    assert RowEdges(es, found, i, j + 1) == RowEdges(es, found, i, j) + DepEdges(found(es[i], es[j]));
  }

  /** `d` relates `a` and `b`, one way or the other. */
  predicate Joins(d: ElementDependency, a: string, b: string) {
    (d.source == a && d.target == b) || (d.source == b && d.target == a)
  }

  /** The finder only ever relates the two elements it is given. */
  ghost predicate JoinsPair(found: Finder) {
    forall a, b, d :: d in found(a, b) ==> Joins(d, a.selector, b.selector)
  }

  /** The rules only ever relate the two elements of the pair. */
  lemma RulesJoinPair(page: Page)
    ensures JoinsPair(RuleFinder(page))
  {
    forall a, b, d | d in RuleFinder(page)(a, b)
      ensures Joins(d, a.selector, b.selector)
    {
      assert {d.source, d.target} == {a.selector, b.selector};
      assert d.source in {a.selector, b.selector} && d.target in {a.selector, b.selector};
    }
  }

  /** Adding the edges of the dependencies found for one pair keeps the graph built. */
  method AddPair(graph: DependencyGraph, ghost base: NodeTable, ghost before: seq<Edge>, ghost after: seq<Edge>, deps: seq<ElementDependency>, a: string, b: string)
    requires Built(graph, base, before)
    requires after == before + DepEdges(deps)
    requires a in base.entries && b in base.entries
    requires forall d :: d in deps ==> Joins(d, a, b)
    modifies graph
    ensures Built(graph, base, after)
  {
    ghost var added := DepEdges(deps);
    assert before + added[..0] == before;
    for k := 0 to |deps|
      invariant Built(graph, base, before + added[..k])
    {
      AddDependencyAt(graph, base, before, added, deps, a, b, k);
    }
    assert added[..|deps|] == added;
  }

  /** One pass of the loop over the dependencies of a pair: the edge of `deps[k]`, which is `added[k]`. */
  method AddDependencyAt(graph: DependencyGraph, ghost base: NodeTable, ghost before: seq<Edge>, ghost added: seq<Edge>,
                         deps: seq<ElementDependency>, a: string, b: string, k: nat)
    requires k < |deps| == |added|
    requires added[k] == Edge(deps[k].target, deps[k].source, DepAttrs(deps[k]))
    requires Built(graph, base, before + added[..k])
    requires a in base.entries && b in base.entries
    requires forall d :: d in deps ==> Joins(d, a, b)
    modifies graph
    ensures Built(graph, base, before + added[..k + 1])
  {
    assert deps[k] in deps;
    SlicePush(before, added, k);
    AddDependency(graph, base, before + added[..k], deps[k]);
  }

  lemma SlicePush<T>(before: seq<T>, added: seq<T>, k: nat)
    requires k < |added|
    ensures before + added[..k + 1] == (before + added[..k]) + [added[k]]
  {
    assert added[..k + 1] == added[..k] + [added[k]];
  }

  /** `e` is one of the edges found for the pair `i < j`. */
  ghost predicate FoundFor(es: seq<InteractiveElement>, found: Finder, i: nat, j: nat, e: Edge) {
    i < j < |es| && e in DepEdges(found(es[i], es[j]))
  }

  lemma {:induction false} RowEdgeFromPair(es: seq<InteractiveElement>, found: Finder, i: nat, j: nat, e: Edge)
    returns (k: nat)
    requires InRow(es, found, i, j, e)
    ensures k < j && FoundFor(es, found, i, k, e)
    decreases j
  {
    var inLast := RowEdgesSplit(es, found, i, j, e);
    if !inLast {
      k := RowEdgeFromPair(es, found, i, j - 1, e);
    } else {
      k := j - 1;
    }
  }

  /** An edge of row `i` before column `j` lies before column `j - 1` or comes from the pair `(i, j - 1)`. */
  lemma RowEdgesSplit(es: seq<InteractiveElement>, found: Finder, i: nat, j: nat, e: Edge) returns (inLast: bool)
    requires InRow(es, found, i, j, e)
    ensures i + 1 < j
    ensures !inLast ==> InRow(es, found, i, j - 1, e)
    ensures inLast ==> FoundFor(es, found, i, j - 1, e)
  {
    assert j != i + 1;
    var earlier, last := RowEdges(es, found, i, j - 1), DepEdges(found(es[i], es[j - 1]));
    assert RowEdges(es, found, i, j) == earlier + last;
    inLast := e !in earlier;
  }

  /** Every edge of the analysis is the edge of a dependency found for a pair `i < j`. */
  lemma {:induction false} PairEdgeFromPair(es: seq<InteractiveElement>, found: Finder, n: nat, e: Edge)
    returns (i: nat, j: nat)
    requires InPairs(es, found, n, e)
    ensures FoundFor(es, found, i, j, e)
  {
    var inRow := PairEdgesSplit(es, found, n, e);
    if !inRow {
      i, j := PairEdgeFromPair(es, found, n - 1, e);
    } else {
      i := n - 1;
      j := RowEdgeFromPair(es, found, n - 1, |es|, e);
    }
  }

  /** `e` is one of the edges of row `i` before column `j`. */
  ghost predicate InRow(es: seq<InteractiveElement>, found: Finder, i: nat, j: nat, e: Edge) {
    i < j <= |es| && e in RowEdges(es, found, i, j)
  }

  /** `e` is one of the edges of the first `n` rows. */
  ghost predicate InPairs(es: seq<InteractiveElement>, found: Finder, n: nat, e: Edge) {
    n <= |es| && e in PairEdges(es, found, n)
  }

  /** An edge of the first `n` rows lies in the first `n - 1` rows or in row `n - 1`. */
  lemma PairEdgesSplit(es: seq<InteractiveElement>, found: Finder, n: nat, e: Edge) returns (inRow: bool)
    requires n <= |es| && e in PairEdges(es, found, n)
    ensures 0 < n
    ensures !inRow ==> InPairs(es, found, n - 1, e)
    ensures inRow ==> InRow(es, found, n - 1, |es|, e)
  {
    assert n != 0;
    var earlier, row := PairEdges(es, found, n - 1), RowEdges(es, found, n - 1, |es|);
    assert PairEdges(es, found, n) == earlier + row;
    inRow := e !in earlier;
  }

  /** With the rules as finder, such an edge runs `target -> source` of a found dependency and joins two element selectors. */
  lemma PairEdgeMeaning(es: seq<InteractiveElement>, page: Page, e: Edge, i: nat, j: nat)
    requires FoundFor(es, RuleFinder(page), i, j, e)
    ensures exists d :: d in DetectDependencies(es[i], es[j], page) && e == Edge(d.target, d.source, DepAttrs(d))
    ensures e.from in Selectors(es) && e.to in Selectors(es)
  {
    var ds := DetectDependencies(es[i], es[j], page);
    var k :| 0 <= k < |DepEdges(ds)| && DepEdges(ds)[k] == e;
    assert ds[k] in ds;
    assert {ds[k].source, ds[k].target} == {es[i].selector, es[j].selector};
  }

  /**
   * The analysed graph has an edge `a -> b` exactly when some pair of elements
   * produced a dependency whose target is `a` and whose source is `b`; it is well
   * formed and has one node per selector.
   */
  lemma AnalysisGraph(es: seq<InteractiveElement>, page: Page)
    ensures var g := ApplyEdges(NodesOf(es), PairEdges(es, RuleFinder(page), |es|));
      && WellFormed(g)
      && g.entries.Keys == Selectors(es)
      && forall a, b :: HasOut(g, a, b) <==> Recorded(PairEdges(es, RuleFinder(page), |es|), a, b)
  {
    var edges := PairEdges(es, RuleFinder(page), |es|);
    NodesOfShape(es);
    ApplyEdgesRelations(NodesOf(es), edges);
    forall a, b | Recorded(edges, a, b)
      ensures a in Selectors(es) && b in Selectors(es)
    {
      var k :| 0 <= k < |edges| && edges[k].from == a && edges[k].to == b;
      assert edges[k] in edges;
      assert InPairs(es, RuleFinder(page), |es|, edges[k]);
      var i, j := PairEdgeFromPair(es, RuleFinder(page), |es|, edges[k]);
      PairEdgeMeaning(es, page, edges[k], i, j);
    }
  }
}
