/**
 * The state of the scheduler's dependency graph and the facts about it that the
 * sort and the grouping rely on.
 *
 * The graph keeps, for every selector, the element and two adjacency lists: the
 * `outgoing` entries name the nodes that must run after it, the `incoming` entries
 * the nodes that must run before it. Both lists carry the edge attributes. The
 * node table is a Python dict, so its keys keep their insertion order, recorded
 * here in `order`.
 */
module GraphModel {
  import opened Wrappers
  import opened Models

  /** The keyword arguments given to `add_edge`: the dependency kind, a reason and an optional weight. */
  datatype EdgeAttrs = EdgeAttrs(kind: string, reason: string, weight: Option<int>)

  /** `attrs.get('weight', 1)`. */
  function WeightOf(a: EdgeAttrs): int {
    if a.weight.Some? then a.weight.value else 1
  }

  /** An entry `{'to': target, **attrs}` of an outgoing list. */
  datatype OutEntry = OutEntry(to: string, attrs: EdgeAttrs)

  /** An entry `{'from': source, **attrs}` of an incoming list. */
  datatype InEntry = InEntry(from: string, attrs: EdgeAttrs)

  /** A triple `(from, to, attrs)` of the flat edge list. */
  datatype Edge = Edge(from: string, to: string, attrs: EdgeAttrs)

  datatype Node = Node(element: InteractiveElement, outgoing: seq<OutEntry>, incoming: seq<InEntry>)

  /** The node dict: its entries and the insertion order of its keys. */
  datatype NodeTable = NodeTable(entries: map<string, Node>, order: seq<string>)

  predicate Distinct<T(==)>(s: seq<T>) {
    forall i, j :: 0 <= i < j < |s| ==> s[i] != s[j]
  }

  lemma DistinctPush<T>(s: seq<T>, x: T)
    requires Distinct(s) && x !in s
    ensures Distinct(s + [x])
  {
  }

  function Members(s: seq<string>): set<string> {
    set x | x in s
  }

  /** `nodes.get(u, {}).get('outgoing', [])`. */
  function Out(g: NodeTable, u: string): seq<OutEntry> {
    if u in g.entries then g.entries[u].outgoing else []
  }

  /** `nodes.get(v, {}).get('incoming', [])`. */
  function In(g: NodeTable, v: string): seq<InEntry> {
    if v in g.entries then g.entries[v].incoming else []
  }

  /** The outgoing list of `u` holds an entry to `v`. */
  predicate HasOut(g: NodeTable, u: string, v: string) {
    exists i :: 0 <= i < |Out(g, u)| && Out(g, u)[i].to == v
  }

  /** The incoming list of `v` holds an entry from `u`. */
  predicate HasIn(g: NodeTable, v: string, u: string) {
    exists i :: 0 <= i < |In(g, v)| && In(g, v)[i].from == u
  }

  /** The key order lists every key once, and every outgoing entry names a node. */
  ghost predicate OutClosed(g: NodeTable) {
    && (forall k :: k in g.entries <==> k in g.order)
    && Distinct(g.order)
    && (forall u, i :: u in g.entries && 0 <= i < |g.entries[u].outgoing| ==> g.entries[u].outgoing[i].to in g.entries)
  }

  /**
   * What `add_node`/`add_edge` keep true: the key order lists each key once, every
   * adjacency entry names a node, and the two adjacency lists mirror each other.
   */
  ghost predicate WellFormed(g: NodeTable) {
    && OutClosed(g)
    && (forall v, i :: v in g.entries && 0 <= i < |g.entries[v].incoming| ==> g.entries[v].incoming[i].from in g.entries)
    && (forall u, v :: HasOut(g, u, v) <==> HasIn(g, v, u))
  }

  // ---------------------------------------------------------------------------
  // Ancestors
  // ---------------------------------------------------------------------------

  /** The nodes named by the incoming list of `x`. */
  function Parents(g: NodeTable, x: string): set<string> {
    set u | u in g.entries && HasIn(g, x, u)
  }

  /** The nodes named by the incoming lists of the nodes in `f`. */
  function ParentsOfSet(g: NodeTable, f: set<string>): set<string> {
    set u | u in g.entries && exists x :: x in f && HasIn(g, x, u)
  }

  /** Every node of `c` has all its parents in `c`. */
  predicate ClosedUnderParents(g: NodeTable, c: set<string>) {
    forall x :: x in c ==> Parents(g, x) <= c
  }

  lemma {:induction false} SetShrinks(keys: set<string>, acc: set<string>, next: set<string>)
    requires next != {} && next <= keys && next !! acc
    ensures |keys - (acc + next)| < |keys - acc|
  {
    assert keys - acc == (keys - (acc + next)) + next;
    assert (keys - (acc + next)) !! next;
  }

  lemma ProperSubsetSmaller(a: set<string>, b: set<string>)
    requires a < b
    ensures |a| < |b|
  {
    assert b == a + (b - a);
    assert b - a != {};
  }

  lemma {:induction false} DistinctMembers(s: seq<string>)
    requires Distinct(s)
    ensures |Members(s)| == |s|
  {
    if s != [] {
      var init := s[..|s| - 1];
      DistinctMembers(init);
      assert Members(s) == Members(init) + {s[|s| - 1]};
      assert s[|s| - 1] !in Members(init);
    }
  }

  /**
   * Walks the incoming edges level by level: `f` is the frontier found last, `acc`
   * every node found so far. Each round adds the parents of the frontier that were
   * not yet found, so the walk ends once a round finds nothing new.
   */
  function AncestorWalk(g: NodeTable, f: set<string>, acc: set<string>): (r: set<string>)
    requires acc <= g.entries.Keys
    decreases |g.entries.Keys - acc|
    ensures acc <= r <= g.entries.Keys
  {
    var next := ParentsOfSet(g, f) - acc;
    if next == {} then acc
    else
      SetShrinks(g.entries.Keys, acc, next);
      AncestorWalk(g, next, acc + next)
  }

  /**
   * `_get_ancestors(s)`: every node reachable from `s` by following one or more
   * incoming entries. `s` itself belongs to it only when it lies on a cycle.
   */
  function Ancestors(g: NodeTable, s: string): set<string> {
    AncestorWalk(g, {s}, {})
  }

  /** The walk's invariant: found nodes outside the frontier have all their parents found. */
  ghost predicate WalkInvariant(g: NodeTable, s: string, f: set<string>, acc: set<string>) {
    && acc <= g.entries.Keys
    && (forall x :: x in f ==> x in acc || x == s)
    && (forall x :: (x in acc || x == s) && x !in f ==> Parents(g, x) <= acc)
  }

  lemma {:induction false} WalkClosed(g: NodeTable, s: string, f: set<string>, acc: set<string>)
    requires WalkInvariant(g, s, f, acc)
    ensures Parents(g, s) <= AncestorWalk(g, f, acc)
    ensures ClosedUnderParents(g, AncestorWalk(g, f, acc))
    decreases |g.entries.Keys - acc|
  {
    var next := ParentsOfSet(g, f) - acc;
    if next == {} {
      WalkDone(g, s, f, acc);
    } else {
      SetShrinks(g.entries.Keys, acc, next);
      WalkStep(g, s, f, acc);
      WalkClosed(g, s, next, acc + next);
    }
  }

  lemma ParentsInFrontier(g: NodeTable, f: set<string>, x: string)
    requires x in f
    ensures Parents(g, x) <= ParentsOfSet(g, f)
  {
  }

  /** A round that finds nothing new leaves a set closed under parents that holds the parents of `s`. */
  lemma WalkDone(g: NodeTable, s: string, f: set<string>, acc: set<string>)
    requires WalkInvariant(g, s, f, acc) && ParentsOfSet(g, f) - acc == {}
    ensures Parents(g, s) <= acc && ClosedUnderParents(g, acc)
  {
    assert ParentsOfSet(g, f) <= acc by {
      forall u | u in ParentsOfSet(g, f)
        ensures u in acc
      {
        assert u !in ParentsOfSet(g, f) - acc;
      }
    }
    forall x | x in acc || x == s
      ensures Parents(g, x) <= acc
    {
      if x in f {
        ParentsInFrontier(g, f, x);
      }
    }
  }

  /** A round keeps the walk's invariant. */
  lemma WalkStep(g: NodeTable, s: string, f: set<string>, acc: set<string>)
    requires WalkInvariant(g, s, f, acc)
    ensures WalkInvariant(g, s, ParentsOfSet(g, f) - acc, acc + (ParentsOfSet(g, f) - acc))
  {
    var next := ParentsOfSet(g, f) - acc;
    forall x | (x in acc + next || x == s) && x !in next
      ensures Parents(g, x) <= acc + next
    {
      if x in f {
        ParentsInFrontier(g, f, x);
      }
    }
  }

  lemma {:induction false} WalkLeast(g: NodeTable, s: string, f: set<string>, acc: set<string>, c: set<string>)
    requires acc <= g.entries.Keys && acc <= c
    requires forall x :: x in f ==> x in c || x == s
    requires Parents(g, s) <= c && ClosedUnderParents(g, c)
    ensures AncestorWalk(g, f, acc) <= c
    decreases |g.entries.Keys - acc|
  {
    var next := ParentsOfSet(g, f) - acc;
    if next != {} {
      SetShrinks(g.entries.Keys, acc, next);
      NextInClosed(g, s, f, c);
      WalkLeast(g, s, next, acc + next, c);
    }
  }

  /** The parents of a frontier inside a parent-closed set `c` lie in `c`. */
  lemma NextInClosed(g: NodeTable, s: string, f: set<string>, c: set<string>)
    requires forall x :: x in f ==> x in c || x == s
    requires Parents(g, s) <= c && ClosedUnderParents(g, c)
    ensures ParentsOfSet(g, f) <= c
  {
    forall u | u in ParentsOfSet(g, f)
      ensures u in c
    {
      var x :| x in f && HasIn(g, x, u);
      assert u in Parents(g, x);
    }
  }

  /** The ancestors hold the parents of `s` and are closed under taking parents. */
  lemma AncestorsClosed(g: NodeTable, s: string)
    ensures Parents(g, s) <= Ancestors(g, s)
    ensures ClosedUnderParents(g, Ancestors(g, s))
  {
    WalkClosed(g, s, {s}, {});
  }

  /** ... and are the least such set: any parent-closed set holding the parents of `s` holds them all. */
  lemma AncestorsLeast(g: NodeTable, s: string, c: set<string>)
    requires Parents(g, s) <= c && ClosedUnderParents(g, c)
    ensures Ancestors(g, s) <= c
  {
    WalkLeast(g, s, {s}, {}, c);
  }

  /** An ancestor's ancestors are ancestors. */
  lemma AncestorsTransitive(g: NodeTable, s: string, p: string)
    requires p in Ancestors(g, s)
    ensures Ancestors(g, p) <= Ancestors(g, s)
  {
    AncestorsClosed(g, s);
    AncestorsLeast(g, p, Ancestors(g, s));
  }

  /** A node with an empty incoming list has no ancestors. */
  lemma NoParentsNoAncestors(g: NodeTable, s: string)
    requires Parents(g, s) == {}
    ensures Ancestors(g, s) == {}
  {
    AncestorsLeast(g, s, {});
  }

  /** No node is its own ancestor. */
  predicate Acyclic(g: NodeTable) {
    forall x :: x in g.entries ==> x !in Ancestors(g, x)
  }

  // ---------------------------------------------------------------------------
  // Counting edges
  // ---------------------------------------------------------------------------

  /** How many entries of an outgoing list point at `v`. */
  function CountTo(s: seq<OutEntry>, v: string): nat {
    if s == [] then 0 else CountTo(s[..|s| - 1], v) + (if s[|s| - 1].to == v then 1 else 0)
  }

  lemma {:induction false} CountToAppend(a: seq<OutEntry>, b: seq<OutEntry>, v: string)
    ensures CountTo(a + b, v) == CountTo(a, v) + CountTo(b, v)
    decreases |b|
  {
    if b != [] {
      assert (a + b)[..|a + b| - 1] == a + b[..|b| - 1];
      CountToAppend(a, b[..|b| - 1], v);
    } else {
      assert a + b == a;
    }
  }

  /** Extending a prefix by one entry adds one exactly when that entry points at `v`. */
  lemma CountToStep(s: seq<OutEntry>, j: nat, v: string)
    requires j < |s|
    ensures CountTo(s[..j + 1], v) == CountTo(s[..j], v) + (if s[j].to == v then 1 else 0)
  {
    assert s[..j + 1][..j] == s[..j];
  }

  lemma {:induction false} CountToZero(s: seq<OutEntry>, v: string)
    ensures CountTo(s, v) == 0 <==> forall i :: 0 <= i < |s| ==> s[i].to != v
  {
    if s != [] {
      CountToZero(s[..|s| - 1], v);
      assert forall i :: 0 <= i < |s| - 1 ==> s[..|s| - 1][i] == s[i];
    }
  }

  /**
   * The in-degree of `v` counted over the outgoing lists of the nodes of `srcs`
   * that are not in `done` (each entry counts, so parallel edges count twice).
   */
  function InDegree(g: NodeTable, srcs: seq<string>, done: set<string>, v: string): nat {
    if srcs == [] then 0
    else
      var u := srcs[|srcs| - 1];
      InDegree(g, srcs[..|srcs| - 1], done, v) + (if u in done then 0 else CountTo(Out(g, u), v))
  }

  lemma InDegreeStep(g: NodeTable, srcs: seq<string>, i: nat, done: set<string>, v: string)
    requires i < |srcs|
    ensures InDegree(g, srcs[..i + 1], done, v) == InDegree(g, srcs[..i], done, v) + (if srcs[i] in done then 0 else CountTo(Out(g, srcs[i]), v))
  {
    assert srcs[..i + 1][..i] == srcs[..i];
  }

  /** The in-degree is zero exactly when no node of `srcs` outside `done` has an entry to `v`. */
  lemma {:induction false} InDegreeZero(g: NodeTable, srcs: seq<string>, done: set<string>, v: string)
    ensures InDegree(g, srcs, done, v) == 0 <==> forall u :: u in srcs && u !in done ==> !HasOut(g, u, v)
  {
    if srcs != [] {
      var u := srcs[|srcs| - 1];
      var init := srcs[..|srcs| - 1];
      InDegreeZero(g, init, done, v);
      CountToZero(Out(g, u), v);
      assert forall w :: w in srcs <==> w in init || w == u;
    }
  }

  /** Marking one more node as done removes exactly its entries from the count. */
  lemma {:induction false} InDegreeRemove(g: NodeTable, srcs: seq<string>, done: set<string>, n: string, v: string)
    requires Distinct(srcs) && n !in done
    ensures InDegree(g, srcs, done, v) == InDegree(g, srcs, done + {n}, v) + (if n in srcs then CountTo(Out(g, n), v) else 0)
  {
    if srcs != [] {
      var init := srcs[..|srcs| - 1];
      assert Distinct(init);
      InDegreeRemove(g, init, done, n, v);
      assert srcs == init + [srcs[|srcs| - 1]];
      assert srcs[|srcs| - 1] == n ==> n !in init;
    }
  }

  /** `v` can be taken next: it is not done and every node with an entry to it is done. */
  predicate Ready(g: NodeTable, done: set<string>, v: string) {
    && v in g.entries
    && v !in done
    && forall u :: u in g.entries && HasOut(g, u, v) ==> u in done
  }

  lemma ReadyIffZero(g: NodeTable, done: set<string>, v: string)
    requires OutClosed(g) && v in g.entries
    ensures Ready(g, done, v) <==> v !in done && InDegree(g, g.order, done, v) == 0
  {
    InDegreeZero(g, g.order, done, v);
  }

  /** `_get_node_weight(v)`: the weights of the incoming entries of `v` added up, each defaulting to 1. */
  function SumWeights(s: seq<InEntry>): int {
    if s == [] then 0 else SumWeights(s[..|s| - 1]) + WeightOf(s[|s| - 1].attrs)
  }

  function NodeWeight(g: NodeTable, v: string): int {
    SumWeights(In(g, v))
  }

  /** The number of outgoing entries over all nodes of `srcs`. */
  function OutSize(g: NodeTable, srcs: seq<string>): nat {
    if srcs == [] then 0 else OutSize(g, srcs[..|srcs| - 1]) + |Out(g, srcs[|srcs| - 1])|
  }

  /** Some node has an outgoing entry. */
  ghost predicate HasAnyEdge(g: NodeTable) {
    exists u, v :: u in g.entries && HasOut(g, u, v)
  }

  // ---------------------------------------------------------------------------
  // Growing the table
  // ---------------------------------------------------------------------------

  /** The table after `add_node(selector, element)`: a new key is appended with empty lists; a known key is left alone. */
  function WithNode(g: NodeTable, selector: string, element: InteractiveElement): (h: NodeTable)
    ensures selector in h.entries && h.entries.Keys == g.entries.Keys + {selector}
    ensures selector in g.entries ==> h == g
    ensures selector !in g.entries ==> h.order == g.order + [selector] && h.entries[selector].element == element
    ensures forall w :: w in g.entries ==> h.entries[w] == g.entries[w]
  {
    if selector in g.entries then g
    else NodeTable(g.entries[selector := Node(element, [], [])], g.order + [selector])
  }

  /** Adding a node leaves every adjacency list as it was. */
  lemma WithNodeLists(g: NodeTable, selector: string, element: InteractiveElement, w: string)
    ensures Out(WithNode(g, selector, element), w) == Out(g, w)
    ensures In(WithNode(g, selector, element), w) == In(g, w)
  {
  }

  /** Adding a node keeps the table well formed and adds no edge. */
  lemma WithNodeWellFormed(g: NodeTable, selector: string, element: InteractiveElement)
    requires WellFormed(g)
    ensures WellFormed(WithNode(g, selector, element))
    ensures forall a, b :: HasOut(WithNode(g, selector, element), a, b) <==> HasOut(g, a, b)
  {
    var h := WithNode(g, selector, element);
    forall a, b
      ensures HasOut(h, a, b) <==> HasOut(g, a, b)
      ensures HasIn(h, b, a) <==> HasIn(g, b, a)
    {
      WithNodeLists(g, selector, element, a);
      WithNodeLists(g, selector, element, b);
    }
    if selector !in g.entries {
      forall i, j | 0 <= i < j < |h.order|
        ensures h.order[i] != h.order[j]
      {
        if j == |g.order| {
          assert h.order[i] == g.order[i];
        }
      }
      forall w, i | w in h.entries && 0 <= i < |h.entries[w].outgoing|
        ensures h.entries[w].outgoing[i].to in h.entries
      {
        WithNodeLists(g, selector, element, w);
        assert h.entries[w].outgoing == Out(h, w);
      }
      forall w, i | w in h.entries && 0 <= i < |h.entries[w].incoming|
        ensures h.entries[w].incoming[i].from in h.entries
      {
        WithNodeLists(g, selector, element, w);
        assert h.entries[w].incoming == In(h, w);
      }
    }
  }

  /** The table after `add_edge(u, v, **attrs)` when both nodes exist: one entry appended to each list. */
  function WithEdge(g: NodeTable, u: string, v: string, attrs: EdgeAttrs): (h: NodeTable)
    requires u in g.entries && v in g.entries
    ensures h.order == g.order && h.entries.Keys == g.entries.Keys
    ensures forall w :: w in g.entries ==> h.entries[w].element == g.entries[w].element
    ensures forall w :: Out(h, w) == Out(g, w) + (if w == u then [OutEntry(v, attrs)] else [])
    ensures forall w :: In(h, w) == In(g, w) + (if w == v then [InEntry(u, attrs)] else [])
  {
    var nu := g.entries[u];
    var g1 := g.(entries := g.entries[u := nu.(outgoing := nu.outgoing + [OutEntry(v, attrs)])]);
    var nv := g1.entries[v];
    g1.(entries := g1.entries[v := nv.(incoming := nv.incoming + [InEntry(u, attrs)])])
  }

  /** Adding an edge adds exactly the pair `u -> v` to both relations. */
  lemma WithEdgeRelations(g: NodeTable, u: string, v: string, attrs: EdgeAttrs)
    requires u in g.entries && v in g.entries
    ensures forall a, b :: HasOut(WithEdge(g, u, v, attrs), a, b) <==> HasOut(g, a, b) || (a == u && b == v)
    ensures forall a, b :: HasIn(WithEdge(g, u, v, attrs), b, a) <==> HasIn(g, b, a) || (a == u && b == v)
  {
    var h := WithEdge(g, u, v, attrs);
    forall a, b
      ensures HasOut(h, a, b) <==> HasOut(g, a, b) || (a == u && b == v)
    {
      if HasOut(h, a, b) {
        var i :| 0 <= i < |Out(h, a)| && Out(h, a)[i].to == b;
        if i < |Out(g, a)| {
          assert Out(g, a)[i] == Out(h, a)[i];
        }
      }
      if HasOut(g, a, b) {
        var i :| 0 <= i < |Out(g, a)| && Out(g, a)[i].to == b;
        assert Out(h, a)[i] == Out(g, a)[i];
      }
      if a == u && b == v {
        assert Out(h, a)[|Out(g, a)|].to == b;
      }
    }
    forall a, b
      ensures HasIn(h, b, a) <==> HasIn(g, b, a) || (a == u && b == v)
    {
      if HasIn(h, b, a) {
        var i :| 0 <= i < |In(h, b)| && In(h, b)[i].from == a;
        if i < |In(g, b)| {
          assert In(g, b)[i] == In(h, b)[i];
        }
      }
      if HasIn(g, b, a) {
        var i :| 0 <= i < |In(g, b)| && In(g, b)[i].from == a;
        assert In(h, b)[i] == In(g, b)[i];
      }
      if a == u && b == v {
        assert In(h, b)[|In(g, b)|].from == a;
      }
    }
  }

  /** Adding an edge between two nodes keeps the table well formed. */
  lemma WithEdgeWellFormed(g: NodeTable, u: string, v: string, attrs: EdgeAttrs)
    requires WellFormed(g) && u in g.entries && v in g.entries
    ensures WellFormed(WithEdge(g, u, v, attrs))
  {
    var h := WithEdge(g, u, v, attrs);
    WithEdgeRelations(g, u, v, attrs);
    forall w, i | w in h.entries && 0 <= i < |h.entries[w].outgoing|
      ensures h.entries[w].outgoing[i].to in h.entries
    {
      assert h.entries[w].outgoing == Out(h, w);
      if i < |Out(g, w)| {
        assert Out(h, w)[i] == Out(g, w)[i];
      }
    }
    forall w, i | w in h.entries && 0 <= i < |h.entries[w].incoming|
      ensures h.entries[w].incoming[i].from in h.entries
    {
      assert h.entries[w].incoming == In(h, w);
      if i < |In(g, w)| {
        assert In(h, w)[i] == In(g, w)[i];
      }
    }
  }

  /** The flat edge list holds a triple from `u` to `v`. */
  predicate Recorded(edges: seq<Edge>, u: string, v: string) {
    exists i :: 0 <= i < |edges| && edges[i].from == u && edges[i].to == v
  }

  /** Every adjacency pair of `g` appears in `edges`. */
  ghost predicate AllRecorded(g: NodeTable, edges: seq<Edge>) {
    forall u, v :: HasOut(g, u, v) ==> Recorded(edges, u, v)
  }

  /** Adding `u -> v` to the adjacency lists and the triple to the flat list keeps every pair recorded. */
  lemma WithEdgeRecorded(g: NodeTable, edges: seq<Edge>, u: string, v: string, attrs: EdgeAttrs)
    requires u in g.entries && v in g.entries && AllRecorded(g, edges)
    ensures AllRecorded(WithEdge(g, u, v, attrs), edges + [Edge(u, v, attrs)])
  {
    var h, es := WithEdge(g, u, v, attrs), edges + [Edge(u, v, attrs)];
    WithEdgeRelations(g, u, v, attrs);
    forall a, b | HasOut(h, a, b)
      ensures Recorded(es, a, b)
    {
      if !(a == u && b == v) {
        var i :| 0 <= i < |edges| && edges[i].from == a && edges[i].to == b;
        assert es[i] == edges[i];
      } else {
        assert es[|edges|] == Edge(u, v, attrs);
      }
    }
  }
}
