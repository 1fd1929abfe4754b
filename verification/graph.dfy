/** `Graph` of `src/graph.rs`: a node vector indexed by id plus a name
    lookup, updated in place by `add_node` and `add_edge`. */
module Graph {
  import opened Adjacency

  class Graph {
    var nodes: seq<Node>
    var nodeLookup: map<string, nat>

    /** The two fields as one value, for the transitions in `Adjacency`. */
    function State(): Store
      reads this
    {
      Store(nodes, nodeLookup)
    }

    ghost predicate Valid()
      reads this
    {
      WellFormed(State())
    }

    /** `Graph::new`: no nodes, no names. */
    constructor ()
      ensures Valid() && State() == Empty()
    {
      nodes := [];
      nodeLookup := map[];
    }

    /** `add_node`: the new node's id is the old length; the name now maps to it.
        `position` is the random draw of `PhysicsData::init`. */
    method AddNode(name: string, data: CountryData, position: Vec2)
      requires Valid()
      modifies this
      ensures Valid()
      ensures State() == InsertNode(old(State()), NodeEntry(name, data, position))
      ensures name in nodeLookup && nodeLookup[name] == old(|nodes|)
      ensures EdgeSet(nodes) == old(EdgeSet(nodes))
    {
      InsertNodeEffect(State(), NodeEntry(name, data, position));
      var id := |nodes|;
      nodeLookup := nodeLookup[name := id];
      nodes := nodes + [Node(id, data, InitPhysics(position), {}, {})];
    }

    /** `add_edge`: a self-loop returns at once; otherwise both ids must be
        in range (the source unwraps them) and the edge is recorded on both ends. */
    method AddEdge(from: nat, to: nat)
      requires Valid()
      requires from == to || (from < |nodes| && to < |nodes|)
      modifies this
      ensures Valid()
      ensures State() == InsertEdge(old(State()), from, to)
      ensures EdgeSet(nodes) == if from == to then old(EdgeSet(nodes)) else old(EdgeSet(nodes)) + {Edge(from, to)}
    {
      InsertEdgeWellFormed(State(), from, to);
      InsertEdgeEdges(State(), from, to);
      if from == to {
        return;
      }
      nodes := nodes[from := nodes[from].(outgoing := nodes[from].outgoing + {to})];
      nodes := nodes[to := nodes[to].(incoming := nodes[to].incoming + {from})];
    }

    /** `add_edge_by_name`: a no-op for equal or unknown names, otherwise
        `add_edge` on the two looked-up ids. */
    method AddEdgeByName(fromName: string, toName: string)
      requires Valid()
      modifies this
      ensures Valid()
      ensures State() == InsertEdgeByName(old(State()), fromName, toName)
      ensures nodeLookup == old(nodeLookup) && |nodes| == old(|nodes|)
      ensures EdgeSet(nodes) ==
        if fromName != toName && fromName in nodeLookup && toName in nodeLookup
        then old(EdgeSet(nodes)) + {Edge(nodeLookup[fromName], nodeLookup[toName])}
        else old(EdgeSet(nodes))
    {
      InsertEdgeByNameEffect(State(), fromName, toName);
      if fromName == toName {
        return;
      }
      if fromName in nodeLookup && toName in nodeLookup {
        AddEdge(nodeLookup[fromName], nodeLookup[toName]);
      }
    }

    /** The inner loop of `get_all_edges`: appends node i's edges, one per
        member of its outgoing set, in the set's iteration order. */
    method AppendOutEdges(edges: seq<Edge>, i: nat) returns (result: seq<Edge>)
      requires i < |nodes|
      ensures result == edges + NodeEdges(nodes[i])
    {
      var source := nodes[i];
      var order := Ascending(source.outgoing);
      result := edges;
      var j := 0;
      while j < |order|
        invariant 0 <= j <= |order|
        invariant result == edges + NodeEdges(source)[..j]
      {
        assert NodeEdges(source)[..j + 1] == NodeEdges(source)[..j] + [Edge(source.id, order[j])];
        result := result + [Edge(source.id, order[j])];
        j := j + 1;
      }
      assert NodeEdges(source)[..j] == NodeEdges(source);
    }

    /** `get_all_edges`: each node's edges, node by node. The result is a
        function of the graph, so two calls on an unchanged graph agree. */
    method GetAllEdges() returns (edges: seq<Edge>)
      requires Valid()
      ensures edges == EdgeList(nodes)
      ensures forall e :: e in edges <==> e in EdgeSet(nodes)
      ensures NoDuplicates(edges) && SourcesAscending(edges)
      ensures forall e :: e in edges ==> e.source != e.destination
      ensures |edges| == OutDegreeSum(nodes)
    {
      edges := [];
      var i := 0;
      while i < |nodes|
        invariant 0 <= i <= |nodes|
        invariant edges == EdgeList(nodes[..i])
      {
        assert nodes[..i + 1][..i] == nodes[..i];
        edges := AppendOutEdges(edges, i);
        i := i + 1;
      }
      assert nodes[..i] == nodes;
      EdgeListFacts(nodes);
      forall e | e in edges ensures e.source != e.destination {
        EdgeViewMirrored(State(), e);
      }
    }
  }

  /** The four `add_node` calls of `build_graph`. */
  method AddCountries(graph: Graph, p0: Vec2, p1: Vec2, p2: Vec2, p3: Vec2)
    requires graph.Valid() && graph.State() == Empty()
    modifies graph
    ensures graph.Valid()
    ensures |graph.nodes| == 4 && EdgeSet(graph.nodes) == {}
    ensures graph.nodeLookup == map["Albania" := 0, "Cambodia" := 1, "Cameroon" := 2, "Nigeria" := 3]
  {
    EmptyWellFormed();
    graph.AddNode("Albania", CountryData("Albania", 'a', 'a'), p0);
    assert graph.nodeLookup == map["Albania" := 0];
    graph.AddNode("Cambodia", CountryData("Cambodia", 'a', 'c'), p1);
    assert graph.nodeLookup == map["Albania" := 0, "Cambodia" := 1];
    graph.AddNode("Cameroon", CountryData("Cameroon", 'n', 'c'), p2);
    assert graph.nodeLookup == map["Albania" := 0, "Cambodia" := 1, "Cameroon" := 2];
    graph.AddNode("Nigeria", CountryData("Nigeria", 'a', 'n'), p3);
  }

  /** The three `add_edge_by_name` calls of `build_graph`. */
  method AddBorders(graph: Graph)
    requires graph.Valid() && |graph.nodes| == 4 && EdgeSet(graph.nodes) == {}
    requires graph.nodeLookup == map["Albania" := 0, "Cambodia" := 1, "Cameroon" := 2, "Nigeria" := 3]
    modifies graph
    ensures graph.Valid()
    ensures |graph.nodes| == 4
    ensures graph.nodeLookup == old(graph.nodeLookup)
    ensures EdgeSet(graph.nodes) == {Edge(1, 0), Edge(2, 3), Edge(3, 0)}
  {
    graph.AddEdgeByName("Cambodia", "Albania");
    assert EdgeSet(graph.nodes) == {Edge(1, 0)};
    graph.AddEdgeByName("Cameroon", "Nigeria");
    assert EdgeSet(graph.nodes) == {Edge(1, 0), Edge(2, 3)};
    graph.AddEdgeByName("Nigeria", "Albania");
  }

  /** `build_graph`: four countries and the three edges between them. The
      four positions are the random draws of `PhysicsData::init`. */
  method BuildGraph(p0: Vec2, p1: Vec2, p2: Vec2, p3: Vec2) returns (graph: Graph)
    ensures fresh(graph) && graph.Valid()
    ensures |graph.nodes| == 4
    ensures graph.nodeLookup == map["Albania" := 0, "Cambodia" := 1, "Cameroon" := 2, "Nigeria" := 3]
    ensures EdgeSet(graph.nodes) == {Edge(1, 0), Edge(2, 3), Edge(3, 0)}
  {
    graph := new Graph();
    AddCountries(graph, p0, p1, p2, p3);
    AddBorders(graph);
  }
}
