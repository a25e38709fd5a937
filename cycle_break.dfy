/**
 * `DependencyGraph._break_cycles`: which edge is dropped when a sort pass stalls,
 * and what dropping it does to the node table.
 */
module CycleBreak {
  import opened Wrappers
  import opened GraphModel
  import opened TopoSort

  /** The in-degree dict `_break_cycles` builds, as a value: every outgoing entry counts once. */
  function Degrees(g: NodeTable): (deg: map<string, int>)
    ensures deg.Keys == g.entries.Keys
  {
    map v | v in g.entries :: InDegree(g, g.order, {}, v)
  }

  /**
   * `min(candidates, key=degree)` over the positive-degree keys in dict order: the
   * position of the first key of least positive degree, or `None` when no degree is
   * positive.
   */
  function FirstMinPositive(keys: seq<string>, deg: map<string, int>): (r: Option<nat>)
    requires forall v :: v in keys ==> v in deg
    ensures r.None? <==> forall i :: 0 <= i < |keys| ==> deg[keys[i]] <= 0
    ensures r.Some? ==> r.value < |keys| && deg[keys[r.value]] > 0
    ensures r.Some? ==> forall i :: 0 <= i < |keys| && deg[keys[i]] > 0 ==> deg[keys[r.value]] <= deg[keys[i]]
    ensures r.Some? ==> forall i :: 0 <= i < r.value && deg[keys[i]] > 0 ==> deg[keys[i]] > deg[keys[r.value]]
  {
    if keys == [] then None
    else
      var init := keys[..|keys| - 1];
      var last := keys[|keys| - 1];
      var k := FirstMinPositive(init, deg);
      assert forall i :: 0 <= i < |init| ==> init[i] == keys[i];
      if deg[last] > 0 && (k.None? || deg[last] < deg[init[k.value]]) then Some(|keys| - 1) else k
  }

  /** `min(incoming, key=weight)`: the position of the first incoming entry of least weight. */
  function FirstLightestEntry(ins: seq<InEntry>): (k: nat)
    requires ins != []
    ensures k < |ins|
    ensures forall i :: 0 <= i < |ins| ==> WeightOf(ins[k].attrs) <= WeightOf(ins[i].attrs)
    ensures forall i :: 0 <= i < k ==> WeightOf(ins[i].attrs) > WeightOf(ins[k].attrs)
  {
    if |ins| == 1 then 0
    else
      var init := ins[..|ins| - 1];
      var k := FirstLightestEntry(init);
      assert forall i :: 0 <= i < |init| ==> init[i] == ins[i];
      if WeightOf(ins[|ins| - 1].attrs) < WeightOf(ins[k].attrs) then |ins| - 1 else k
  }

  /**
   * The edge `_break_cycles` drops, as `(from, to)`: `to` is the first node of least
   * positive in-degree, `from` the source of its first lightest incoming entry.
   * `None` when no in-degree is positive or that node's incoming list is empty.
   */
  function EdgeToBreak(g: NodeTable): (r: Option<(string, string)>)
    requires OutClosed(g)
    ensures r.Some? ==> r.value.1 in g.entries && In(g, r.value.1) != []
  {
    match FirstMinPositive(g.order, Degrees(g))
    case None => None
    case Some(k) =>
      var v := g.order[k];
      var ins := In(g, v);
      if ins == [] then None else Some((ins[FirstLightestEntry(ins)].from, v))
  }

  /**
   * The selection half of `_break_cycles`: count the in-degrees, take the first
   * node of least positive in-degree and the first lightest entry of its incoming list.
   */
  method ChooseEdge(g: NodeTable) returns (choice: Option<(string, string)>)
    requires OutClosed(g)
    ensures choice == EdgeToBreak(g)
  {
    var deg := InDegrees(g);
    assert deg == Degrees(g);
    var k := FirstMinPositive(g.order, deg);
    choice := None;
    if k.Some? {
      var v := g.order[k.value];
      var incoming := g.entries[v].incoming;
      if incoming != [] {
        choice := Some((incoming[FirstLightestEntry(incoming)].from, v));
      }
    }
  }

  /** The chosen target has the least positive in-degree, and the chosen source is the lightest entry of its incoming list. */
  lemma EdgeToBreakChoice(g: NodeTable)
    requires OutClosed(g) && EdgeToBreak(g).Some?
    ensures var (u, v) := EdgeToBreak(g).value;
      && InDegree(g, g.order, {}, v) > 0
      && (forall w :: w in g.entries && InDegree(g, g.order, {}, w) > 0 ==> InDegree(g, g.order, {}, v) <= InDegree(g, g.order, {}, w))
      && (exists i :: 0 <= i < |In(g, v)| && In(g, v)[i].from == u
            && forall j :: 0 <= j < |In(g, v)| ==> WeightOf(In(g, v)[i].attrs) <= WeightOf(In(g, v)[j].attrs))
  {
    var k := FirstMinPositive(g.order, Degrees(g)).value;
    var ins := In(g, g.order[k]);
    var i := FirstLightestEntry(ins);
    forall w | w in g.entries && InDegree(g, g.order, {}, w) > 0
      ensures InDegree(g, g.order, {}, g.order[k]) <= InDegree(g, g.order, {}, w)
    {
      var j :| 0 <= j < |g.order| && g.order[j] == w;
      assert Degrees(g)[g.order[j]] > 0;
    }
  }

  /** A node of positive in-degree has a parent on its incoming list. */
  lemma PositiveDegreeHasIncoming(g: NodeTable, w: string)
    requires WellFormed(g) && w in g.entries && InDegree(g, g.order, {}, w) > 0
    ensures In(g, w) != []
  {
    InDegreeZero(g, g.order, {}, w);
    var p :| p in g.order && HasOut(g, p, w);
    assert HasIn(g, w, p);
  }

  /** Some edge exists exactly when some in-degree is positive. */
  lemma AnyEdgeIffPositiveDegree(g: NodeTable)
    requires OutClosed(g)
    ensures HasAnyEdge(g) <==> exists i :: 0 <= i < |g.order| && Degrees(g)[g.order[i]] > 0
  {
    if HasAnyEdge(g) {
      var u, v :| u in g.entries && HasOut(g, u, v);
      var i :| 0 <= i < |Out(g, u)| && Out(g, u)[i].to == v;
      InDegreeZero(g, g.order, {}, v);
      var j :| 0 <= j < |g.order| && g.order[j] == v;
      assert Degrees(g)[g.order[j]] > 0;
    }
    if exists i :: 0 <= i < |g.order| && Degrees(g)[g.order[i]] > 0 {
      var i :| 0 <= i < |g.order| && Degrees(g)[g.order[i]] > 0;
      InDegreeZero(g, g.order, {}, g.order[i]);
    }
  }

  /** On a well-formed table an edge is chosen exactly when there is one. */
  lemma EdgeToBreakIffEdge(g: NodeTable)
    requires WellFormed(g)
    ensures EdgeToBreak(g).Some? <==> HasAnyEdge(g)
  {
    AnyEdgeIffPositiveDegree(g);
    var r := FirstMinPositive(g.order, Degrees(g));
    if r.Some? {
      PositiveDegreeHasIncoming(g, g.order[r.value]);
    }
  }

  /** The chosen pair is an edge of the table. */
  lemma EdgeToBreakIsEdge(g: NodeTable)
    requires WellFormed(g) && EdgeToBreak(g).Some?
    ensures var (u, v) := EdgeToBreak(g).value; u in g.entries && HasOut(g, u, v)
  {
    var (u, v) := EdgeToBreak(g).value;
    var k := FirstLightestEntry(In(g, v));
    assert In(g, v)[k].from == u;
    assert HasIn(g, v, u);
  }

  /** `[e for e in outgoing if e['to'] != v]`. */
  function FilterOutTo(s: seq<OutEntry>, v: string): (r: seq<OutEntry>)
    ensures |r| <= |s|
    ensures forall e :: e in r <==> e in s && e.to != v
    ensures (exists i :: 0 <= i < |s| && s[i].to == v) ==> |r| < |s|
  {
    if s == [] then []
    else
      var init := s[..|s| - 1];
      var last := s[|s| - 1];
      assert s == init + [last];
      var r := FilterOutTo(init, v);
      assert (exists i :: 0 <= i < |s| && s[i].to == v) && last.to != v ==> exists i :: 0 <= i < |init| && init[i].to == v;
      if last.to != v then r + [last] else r
  }

  /** `[e for e in incoming if e['from'] != u]`. */
  function FilterInFrom(s: seq<InEntry>, u: string): (r: seq<InEntry>)
    ensures |r| <= |s|
    ensures forall e :: e in r <==> e in s && e.from != u
  {
    if s == [] then []
    else
      var init := s[..|s| - 1];
      var last := s[|s| - 1];
      assert s == init + [last];
      var r := FilterInFrom(init, u);
      if last.from != u then r + [last] else r
  }

  /** The two reassignments of `_break_cycles`: `u` loses its entries to `v`, then `v` loses its entries from `u`. */
  function RemoveEdge(g: NodeTable, u: string, v: string): (h: NodeTable)
    requires u in g.entries && v in g.entries
    ensures h.order == g.order && h.entries.Keys == g.entries.Keys
    ensures forall w :: w in g.entries ==> h.entries[w].element == g.entries[w].element
  {
    var nu := g.entries[u];
    var g1 := g.(entries := g.entries[u := nu.(outgoing := FilterOutTo(nu.outgoing, v))]);
    var nv := g1.entries[v];
    g1.(entries := g1.entries[v := nv.(incoming := FilterInFrom(nv.incoming, u))])
  }

  lemma RemoveEdgeLists(g: NodeTable, u: string, v: string, w: string)
    requires u in g.entries && v in g.entries
    ensures Out(RemoveEdge(g, u, v), w) == if w == u then FilterOutTo(Out(g, w), v) else Out(g, w)
    ensures In(RemoveEdge(g, u, v), w) == if w == v then FilterInFrom(In(g, w), u) else In(g, w)
  {
  }

  /** Dropping the edge removes exactly the pair `u -> v` from both adjacency relations. */
  lemma RemoveEdgeRelations(g: NodeTable, u: string, v: string)
    requires u in g.entries && v in g.entries
    ensures forall a, b :: HasOut(RemoveEdge(g, u, v), a, b) <==> HasOut(g, a, b) && !(a == u && b == v)
    ensures forall a, b :: HasIn(RemoveEdge(g, u, v), b, a) <==> HasIn(g, b, a) && !(a == u && b == v)
  {
    forall a, b
      ensures HasOut(RemoveEdge(g, u, v), a, b) <==> HasOut(g, a, b) && !(a == u && b == v)
    {
      RemoveEdgeOut(g, u, v, a, b);
    }
    forall a, b
      ensures HasIn(RemoveEdge(g, u, v), b, a) <==> HasIn(g, b, a) && !(a == u && b == v)
    {
      RemoveEdgeIn(g, u, v, a, b);
    }
  }

  lemma RemoveEdgeOut(g: NodeTable, u: string, v: string, a: string, b: string)
    requires u in g.entries && v in g.entries
    ensures HasOut(RemoveEdge(g, u, v), a, b) <==> HasOut(g, a, b) && !(a == u && b == v)
  {
    var h := RemoveEdge(g, u, v);
    RemoveEdgeLists(g, u, v, a);
    if a == u {
      if HasOut(h, a, b) {
        var j :| 0 <= j < |Out(h, a)| && Out(h, a)[j].to == b;
        var i := FilterOutSource(Out(g, a), v, j);
      }
      if HasOut(g, a, b) && b != v {
        var i :| 0 <= i < |Out(g, a)| && Out(g, a)[i].to == b;
        var j := FilterOutKeeps(Out(g, a), v, i);
      }
    }
  }

  lemma RemoveEdgeIn(g: NodeTable, u: string, v: string, a: string, b: string)
    requires u in g.entries && v in g.entries
    ensures HasIn(RemoveEdge(g, u, v), b, a) <==> HasIn(g, b, a) && !(a == u && b == v)
  {
    var h := RemoveEdge(g, u, v);
    RemoveEdgeLists(g, u, v, b);
    if b == v {
      if HasIn(h, b, a) {
        var j :| 0 <= j < |In(h, b)| && In(h, b)[j].from == a;
        var i := FilterInSource(In(g, b), u, j);
      }
      if HasIn(g, b, a) && a != u {
        var i :| 0 <= i < |In(g, b)| && In(g, b)[i].from == a;
        var j := FilterInKeeps(In(g, b), u, i);
      }
    }
  }

  /** Each entry the outgoing filter keeps is an entry of the list not pointing at `v`. */
  lemma FilterOutSource(s: seq<OutEntry>, v: string, j: nat) returns (i: nat)
    requires j < |FilterOutTo(s, v)|
    ensures i < |s| && s[i] == FilterOutTo(s, v)[j] && s[i].to != v
  {
    assert FilterOutTo(s, v)[j] in FilterOutTo(s, v);
    i :| 0 <= i < |s| && s[i] == FilterOutTo(s, v)[j];
  }

  /** Each entry not pointing at `v` survives the outgoing filter. */
  lemma FilterOutKeeps(s: seq<OutEntry>, v: string, i: nat) returns (j: nat)
    requires i < |s| && s[i].to != v
    ensures j < |FilterOutTo(s, v)| && FilterOutTo(s, v)[j] == s[i]
  {
    assert s[i] in s;
    j :| 0 <= j < |FilterOutTo(s, v)| && FilterOutTo(s, v)[j] == s[i];
  }

  /** Each entry the incoming filter keeps is an entry of the list not coming from `u`. */
  lemma FilterInSource(s: seq<InEntry>, u: string, j: nat) returns (i: nat)
    requires j < |FilterInFrom(s, u)|
    ensures i < |s| && s[i] == FilterInFrom(s, u)[j] && s[i].from != u
  {
    assert FilterInFrom(s, u)[j] in FilterInFrom(s, u);
    i :| 0 <= i < |s| && s[i] == FilterInFrom(s, u)[j];
  }

  /** Each entry not coming from `u` survives the incoming filter. */
  lemma FilterInKeeps(s: seq<InEntry>, u: string, i: nat) returns (j: nat)
    requires i < |s| && s[i].from != u
    ensures j < |FilterInFrom(s, u)| && FilterInFrom(s, u)[j] == s[i]
  {
    assert s[i] in s;
    j :| 0 <= j < |FilterInFrom(s, u)| && FilterInFrom(s, u)[j] == s[i];
  }

  /** Dropping an edge keeps the table well formed. */
  lemma RemoveEdgeWellFormed(g: NodeTable, u: string, v: string)
    requires WellFormed(g) && u in g.entries && v in g.entries
    ensures WellFormed(RemoveEdge(g, u, v))
  {
    var h := RemoveEdge(g, u, v);
    RemoveEdgeRelations(g, u, v);
    forall w, i | w in h.entries && 0 <= i < |h.entries[w].outgoing|
      ensures h.entries[w].outgoing[i].to in h.entries
    {
      RemoveEdgeLists(g, u, v, w);
      assert h.entries[w].outgoing[i] in Out(g, w);
    }
    forall w, i | w in h.entries && 0 <= i < |h.entries[w].incoming|
      ensures h.entries[w].incoming[i].from in h.entries
    {
      RemoveEdgeLists(g, u, v, w);
      assert h.entries[w].incoming[i] in In(g, w);
    }
  }

  /** Over distinct sources, shortening one node's outgoing list shortens the total. */
  lemma {:induction false} OutSizeShrinks(g: NodeTable, h: NodeTable, srcs: seq<string>, u: string)
    requires Distinct(srcs)
    requires forall w :: w != u ==> |Out(h, w)| == |Out(g, w)|
    requires |Out(h, u)| < |Out(g, u)|
    ensures OutSize(h, srcs) <= OutSize(g, srcs)
    ensures u in srcs ==> OutSize(h, srcs) < OutSize(g, srcs)
  {
    if srcs != [] {
      var init := srcs[..|srcs| - 1];
      assert Distinct(init);
      OutSizeShrinks(g, h, init, u);
      assert forall w :: w in srcs <==> w in init || w == srcs[|srcs| - 1];
    }
  }

  /** Dropping an existing edge strictly lowers the number of outgoing entries, which bounds the retries of the sort. */
  lemma RemoveEdgeShrinks(g: NodeTable, u: string, v: string)
    requires OutClosed(g) && u in g.entries && v in g.entries && HasOut(g, u, v)
    ensures OutSize(RemoveEdge(g, u, v), g.order) < OutSize(g, g.order)
  {
    var h := RemoveEdge(g, u, v);
    forall w
      ensures w != u ==> |Out(h, w)| == |Out(g, w)|
    {
      RemoveEdgeLists(g, u, v, w);
    }
    RemoveEdgeLists(g, u, v, u);
    OutSizeShrinks(g, h, g.order, u);
  }

  /** Dropping an edge keeps every remaining pair recorded in the flat list. */
  lemma RemoveEdgeRecorded(g: NodeTable, u: string, v: string, edges: seq<Edge>)
    requires u in g.entries && v in g.entries && AllRecorded(g, edges)
    ensures AllRecorded(RemoveEdge(g, u, v), edges)
  {
    RemoveEdgeRelations(g, u, v);
  }

  /** A node on a cycle has a parent, so a cyclic graph has an edge for the repair to drop. */
  lemma CycleHasEdge(g: NodeTable)
    requires WellFormed(g) && !Acyclic(g)
    ensures HasAnyEdge(g) && EdgeToBreak(g).Some?
  {
    var x :| x in g.entries && x in Ancestors(g, x);
    if Parents(g, x) == {} {
      NoParentsNoAncestors(g, x);
    }
    var u :| u in Parents(g, x);
    assert HasOut(g, u, x);
    EdgeToBreakIffEdge(g);
  }

  /**
   * The graph `topological_sort` ends with: while a cycle remains (a pass leaves
   * nodes out), `_break_cycles` drops the edge `EdgeToBreak` chooses. The result is
   * acyclic, has the same nodes and elements, and only lost edges.
   */
  function Repaired(g: NodeTable): (h: NodeTable)
    requires WellFormed(g)
    decreases OutSize(g, g.order)
    ensures WellFormed(h) && Acyclic(h)
    ensures h.order == g.order && h.entries.Keys == g.entries.Keys
    ensures forall w :: w in g.entries ==> h.entries[w].element == g.entries[w].element
    ensures forall a, b :: HasOut(h, a, b) ==> HasOut(g, a, b)
    ensures Acyclic(g) ==> h == g
  {
    if Acyclic(g) then g
    else
      CycleHasEdge(g);
      EdgeToBreakIsEdge(g);
      var (u, v) := EdgeToBreak(g).value;
      RemoveEdgeShrinks(g, u, v);
      RemoveEdgeWellFormed(g, u, v);
      RemoveEdgeRelations(g, u, v);
      Repaired(RemoveEdge(g, u, v))
  }

  /** One round of the repair: a cyclic graph is repaired as the graph less the edge `EdgeToBreak` chooses. */
  lemma RepairedStep(g: NodeTable)
    requires WellFormed(g) && !Acyclic(g)
    ensures EdgeToBreak(g).Some?
    ensures var (u, v) := EdgeToBreak(g).value;
      && u in g.entries && v in g.entries && WellFormed(RemoveEdge(g, u, v))
      && Repaired(g) == Repaired(RemoveEdge(g, u, v))
  {
    CycleHasEdge(g);
    EdgeToBreakIsEdge(g);
    var (u, v) := EdgeToBreak(g).value;
    RemoveEdgeWellFormed(g, u, v);
  }
}
