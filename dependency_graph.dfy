/**
 * `DependencyGraph`: the node dict with its mirrored adjacency lists and the flat
 * edge list, the operations that grow it, and the sort that repairs cycles by
 * dropping edges until a pass of Kahn's algorithm takes every node.
 */
module Graph {
  import opened Wrappers
  import opened Models
  import opened GraphModel
  import opened TopoSort
  import opened CycleBreak

  class DependencyGraph {
    var nodes: NodeTable
    var edges: seq<Edge>

    /** The adjacency lists mirror each other, and every adjacency pair was recorded in the flat edge list. */
    ghost predicate Valid()
      reads this
    {
      && WellFormed(nodes)
      && AllRecorded(nodes, edges)
    }

    constructor()
      ensures Valid()
      ensures nodes == NodeTable(map[], []) && edges == []
    {
      nodes := NodeTable(map[], []);
      edges := [];
    }

    /** `add_node`: registers a selector once; a second call for the same selector changes nothing. */
    method AddNode(selector: string, element: InteractiveElement)
      requires Valid()
      modifies this
      ensures Valid()
      ensures nodes == WithNode(old(nodes), selector, element) && edges == old(edges)
    {
      ghost var g0 := nodes;
      if selector !in nodes.entries {
        nodes := NodeTable(nodes.entries[selector := Node(element, [], [])], nodes.order + [selector]);
      }
      WithNodeWellFormed(g0, selector, element);
    }

    /**
     * `add_edge(u, v, **attrs)`: when both nodes exist, one entry is appended to the
     * outgoing list of `u`, one to the incoming list of `v` and one triple to the
     * flat list; otherwise nothing changes.
     */
    method AddEdge(u: string, v: string, attrs: EdgeAttrs)
      requires Valid()
      modifies this
      ensures Valid()
      ensures u in old(nodes.entries) && v in old(nodes.entries) ==>
        nodes == WithEdge(old(nodes), u, v, attrs) && edges == old(edges) + [Edge(u, v, attrs)]
      ensures !(u in old(nodes.entries) && v in old(nodes.entries)) ==> nodes == old(nodes) && edges == old(edges)
    {
      if u in nodes.entries && v in nodes.entries {
        ghost var g0 := nodes;
        ghost var e0 := edges;
        var nu := nodes.entries[u];
        nodes := nodes.(entries := nodes.entries[u := nu.(outgoing := nu.outgoing + [OutEntry(v, attrs)])]);
        var nv := nodes.entries[v];
        nodes := nodes.(entries := nodes.entries[v := nv.(incoming := nv.incoming + [InEntry(u, attrs)])]);
        edges := edges + [Edge(u, v, attrs)];
        assert nodes == WithEdge(g0, u, v, attrs);
        WithEdgeWellFormed(g0, u, v, attrs);
        WithEdgeRecorded(g0, e0, u, v, attrs);
      }
    }

    /** `edge_count`: the length of the flat edge list. */
    function EdgeCount(): nat
      reads this
    {
      |edges|
    }

    /**
     * `_break_cycles`: drops the edge `EdgeToBreak` chooses, from both adjacency
     * lists; the flat edge list is not touched.
     */
    method BreakCycles()
      requires Valid()
      modifies this
      ensures Valid()
      ensures edges == old(edges)
      ensures EdgeToBreak(old(nodes)).None? ==> nodes == old(nodes)
      ensures EdgeToBreak(old(nodes)).Some? ==>
        var (u, v) := EdgeToBreak(old(nodes)).value;
        u in old(nodes.entries) && v in old(nodes.entries) && nodes == RemoveEdge(old(nodes), u, v)
    {
      ghost var g0 := nodes;
      var choice := ChooseEdge(nodes);
      if choice.Some? {
        var (u, v) := choice.value;
        EdgeToBreakIsEdge(g0);
        var nu := nodes.entries[u];
        nodes := nodes.(entries := nodes.entries[u := nu.(outgoing := FilterOutTo(nu.outgoing, v))]);
        var nv := nodes.entries[v];
        nodes := nodes.(entries := nodes.entries[v := nv.(incoming := FilterInFrom(nv.incoming, u))]);
        assert nodes == RemoveEdge(g0, u, v);
        RemoveEdgeWellFormed(g0, u, v);
        RemoveEdgeRecorded(g0, u, v, edges);
      }
    }

    /**
     * `topological_sort`: a Kahn pass; when it leaves nodes out, one edge is dropped
     * and the sort starts over. The result lists every node once, each after every
     * node with an edge to it in the final graph; the final graph is the initial one
     * less some edges, and an acyclic graph is left untouched.
     */
    method TopologicalSort() returns (result: seq<string>, ghost arrival: seq<string>)
      requires Valid()
      modifies this
      decreases OutSize(nodes, nodes.order)
      ensures Valid() && edges == old(edges)
      ensures nodes.order == old(nodes.order) && nodes.entries.Keys == old(nodes.entries.Keys)
      ensures forall w :: w in nodes.entries ==> nodes.entries[w].element == old(nodes.entries[w].element)
      ensures forall a, b :: HasOut(nodes, a, b) ==> HasOut(old(nodes), a, b)
      ensures Acyclic(old(nodes)) ==> nodes == old(nodes)
      ensures Acyclic(nodes) && nodes == Repaired(old(nodes))
      ensures ReadyOrder(nodes, result) && LightestFirst(nodes, result)
      ensures Members(arrival) == Members(result) && ArrivalFollowsReadiness(nodes, result, arrival) && TiesByArrival(nodes, result, arrival)
      ensures Distinct(result) && Members(result) == nodes.entries.Keys && |result| == |nodes.order|
    {
      result, arrival := KahnPass(nodes);
      PassOutcome(nodes, result);
      if |result| != |nodes.order| {
        ghost var g0 := nodes;
        RepairedStep(g0);
        EdgeToBreakIsEdge(g0);
        var (a, b) := EdgeToBreak(nodes).value;
        RemoveEdgeShrinks(nodes, a, b);
        BreakCycles();
        result, arrival := TopologicalSort();
      }
    }
  }
}
