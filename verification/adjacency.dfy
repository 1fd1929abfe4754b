/** The value layer of the graph store shared by `src/graph.rs` and
    `src/graph_builder.rs`: node records, the derived edge view, the
    store invariant, and the state transitions that the two `Graph`
    classes perform in place, with the properties proved about them. */
module Adjacency {

  /** Country payload carried by every node (`CountryData`). */
  datatype CountryData = CountryData(name: string, firstLetter: char, lastLetter: char)

  datatype Vec2 = Vec2(x: real, y: real)

  /** Physics payload (`PhysicsData`): opaque to the graph store. */
  datatype PhysicsData = PhysicsData(mass: real, velocity: Vec2, force: Vec2, position: Vec2, radius: real)

  /** `PhysicsData::init`: zero mass, velocity and force, radius 15; the
      position is a random draw, so it is supplied by the caller. */
  function InitPhysics(position: Vec2): PhysicsData
  {
    PhysicsData(0.0, Vec2(0.0, 0.0), Vec2(0.0, 0.0), position, 15.0)
  }

  /** A node (`Node` / `CountryNode`): its id and its two adjacency sets. */
  datatype Node = Node(id: nat, country: CountryData, physics: PhysicsData,
                       outgoing: set<nat>, incoming: set<nat>)

  /** A directed edge as `get_all_edges` reports it. */
  datatype Edge = Edge(source: nat, destination: nat)

  /** The two fields of `Graph`: the node vector and the name lookup. */
  datatype Store = Store(nodes: seq<Node>, lookup: map<string, nat>)

  /** What `add_node` needs to create one node. */
  datatype NodeEntry = NodeEntry(name: string, country: CountryData, position: Vec2)

  // ---------------------------------------------------------------------
  // The store invariant

  /** Ids are dense: the node at index i has id i. */
  ghost predicate DenseIds(nodes: seq<Node>)
  {
    forall i :: 0 <= i < |nodes| ==> nodes[i].id == i
  }

  /** The outgoing and incoming sets mirror each other and name only existing nodes. */
  ghost predicate Mirrored(nodes: seq<Node>)
  {
    (forall s: nat, d: nat {:trigger d in nodes[s].outgoing} :: s < |nodes| && d in nodes[s].outgoing ==> d < |nodes| && s in nodes[d].incoming) &&
    (forall d: nat, s: nat {:trigger s in nodes[d].incoming} :: d < |nodes| && s in nodes[d].incoming ==> s < |nodes| && d in nodes[s].outgoing)
  }

  /** No node lists itself as a neighbour. */
  ghost predicate NoSelfLoops(nodes: seq<Node>)
  {
    forall i :: 0 <= i < |nodes| ==> i !in nodes[i].outgoing && i !in nodes[i].incoming
  }

  /** Every name maps to an existing node, and no two names map to the same node. */
  ghost predicate LookupSound(s: Store)
  {
    (forall name :: name in s.lookup ==> s.lookup[name] < |s.nodes|) &&
    (forall a, b :: a in s.lookup && b in s.lookup && a != b ==> s.lookup[a] != s.lookup[b])
  }

  ghost predicate WellFormed(s: Store)
  {
    DenseIds(s.nodes) && Mirrored(s.nodes) && NoSelfLoops(s.nodes) && LookupSound(s)
  }

  // ---------------------------------------------------------------------
  // The derived edge view

  /** The edges one node contributes: one per member of its outgoing set. */
  function OutEdges(n: Node): set<Edge>
  {
    set d | d in n.outgoing :: Edge(n.id, d)
  }

  /** The edge view, node by node in index order. */
  function EdgeSet(nodes: seq<Node>): set<Edge>
  {
    if |nodes| == 0 then {} else EdgeSet(nodes[..|nodes| - 1]) + OutEdges(nodes[|nodes| - 1])
  }

  /** Sum of the sizes of the outgoing sets. */
  function OutDegreeSum(nodes: seq<Node>): nat
  {
    if |nodes| == 0 then 0 else OutDegreeSum(nodes[..|nodes| - 1]) + |nodes[|nodes| - 1].outgoing|
  }

  /** Edge list properties promised by `get_all_edges`. */
  ghost predicate NoDuplicates(edges: seq<Edge>)
  {
    forall j, k :: 0 <= j < k < |edges| ==> edges[j] != edges[k]
  }

  ghost predicate SourcesAscending(edges: seq<Edge>)
  {
    forall j, k :: 0 <= j < k < |edges| ==> edges[j].source <= edges[k].source
  }

  /** Joining two duplicate-free lists with ascending sources, where every
      source of the first is below `bound` and every source of the second is
      `bound`, keeps both properties. */
  lemma ConcatEdgeLists(a: seq<Edge>, b: seq<Edge>, bound: nat)
    requires NoDuplicates(a) && SourcesAscending(a) && NoDuplicates(b) && SourcesAscending(b)
    requires forall e :: e in a ==> e.source < bound
    requires forall e :: e in b ==> e.source == bound
    ensures NoDuplicates(a + b) && SourcesAscending(a + b)
  {
    var r := a + b;
    forall j, k | 0 <= j < k < |r| ensures r[j] != r[k] && r[j].source <= r[k].source {
      if k < |a| {
        assert r[j] == a[j] && r[k] == a[k];
      } else if j >= |a| {
        assert r[j] == b[j - |a|] && r[k] == b[k - |a|];
      } else {
        assert r[j] in a && r[k] in b;
      }
    }
  }

  /** An edge is in the view exactly when some node with its source id lists its destination. */
  lemma {:induction false} EdgeSetMembership(nodes: seq<Node>, e: Edge)
    ensures e in EdgeSet(nodes) <==>
            exists i :: 0 <= i < |nodes| && nodes[i].id == e.source && e.destination in nodes[i].outgoing
  {
    if |nodes| > 0 {
      var prefix := nodes[..|nodes| - 1];
      EdgeSetMembership(prefix, e);
      if e in EdgeSet(nodes) {
        if e in OutEdges(nodes[|nodes| - 1]) {
          assert nodes[|nodes| - 1].id == e.source && e.destination in nodes[|nodes| - 1].outgoing;
        } else {
          var i :| 0 <= i < |prefix| && prefix[i].id == e.source && e.destination in prefix[i].outgoing;
          assert nodes[i] == prefix[i];
        }
      } else {
        forall i | 0 <= i < |nodes| && nodes[i].id == e.source
          ensures e.destination !in nodes[i].outgoing
        {
          if i < |prefix| {
            assert nodes[i] == prefix[i];
          } else {
            assert Edge(nodes[i].id, e.destination) == e;
          }
        }
      }
    }
  }

  /** With dense ids, (s, d) is an edge exactly when d is in node s's outgoing set. */
  lemma DenseEdgeSetMembership(nodes: seq<Node>, e: Edge)
    requires DenseIds(nodes)
    ensures e in EdgeSet(nodes) <==> e.source < |nodes| && e.destination in nodes[e.source].outgoing
  {
    EdgeSetMembership(nodes, e);
  }

  // ---------------------------------------------------------------------
  // The edge list of get_all_edges

  /** The least member of a non-empty set of ids. */
  lemma {:induction false} LeastMember(s: set<nat>) returns (least: nat)
    requires s != {}
    ensures least in s && forall y :: y in s ==> least <= y
    decreases s
  {
    var x :| x in s;
    if s == {x} {
      least := x;
    } else {
      var m := LeastMember(s - {x});
      least := if x < m then x else m;
      forall y | y in s ensures least <= y {
        if y != x {
          assert y in s - {x};
        }
      }
    }
  }

  lemma MinExists(s: set<nat>)
    requires s != {}
    ensures exists m :: m in s && forall y :: y in s ==> m <= y
  {
    var least := LeastMember(s);
  }

  /** The members of a set of ids, each once, in ascending order. This is the
      model's iteration order for a `HashSet`: the real order is unspecified,
      but it is a function of the set, so an unchanged set is walked the same
      way every time. */
  function Ascending(s: set<nat>): seq<nat>
    decreases s
  {
    if s == {} then []
    else
      MinExists(s);
      var m :| m in s && forall y :: y in s ==> m <= y;
      [m] + Ascending(s - {m})
  }

  /** `Ascending` lists every member exactly once, smallest first. */
  lemma {:induction false} AscendingFacts(s: set<nat>)
    ensures |Ascending(s)| == |s|
    ensures forall x :: x in Ascending(s) <==> x in s
    ensures forall j, k :: 0 <= j < k < |Ascending(s)| ==> Ascending(s)[j] < Ascending(s)[k]
    decreases s
  {
    if s != {} {
      var r := Ascending(s);
      var m := r[0];
      var rest := s - {m};
      assert m in s && forall y :: y in s ==> m <= y;
      assert r == [m] + Ascending(rest);
      AscendingFacts(rest);
      assert |rest| == |s| - 1;
      forall j, k | 0 <= j < k < |r| ensures r[j] < r[k] {
        if j == 0 {
          assert r[k] in rest;
        } else {
          assert r[j] == Ascending(rest)[j - 1] && r[k] == Ascending(rest)[k - 1];
        }
      }
    }
  }

  /** The edges one node contributes to `get_all_edges`, in iteration order. */
  function NodeEdges(n: Node): seq<Edge>
  {
    var order := Ascending(n.outgoing);
    seq(|order|, k requires 0 <= k < |order| => Edge(n.id, order[k]))
  }

  /** The list `get_all_edges` builds: each node's edges, node by node in index order. */
  function EdgeList(nodes: seq<Node>): seq<Edge>
  {
    if |nodes| == 0 then [] else EdgeList(nodes[..|nodes| - 1]) + NodeEdges(nodes[|nodes| - 1])
  }

  /** One node's block lists each outgoing neighbour once, with that node as source. */
  lemma NodeEdgesFacts(n: Node)
    ensures |NodeEdges(n)| == |n.outgoing|
    ensures forall e :: e in NodeEdges(n) <==> e.source == n.id && e.destination in n.outgoing
    ensures NoDuplicates(NodeEdges(n)) && SourcesAscending(NodeEdges(n))
  {
    var order := Ascending(n.outgoing);
    AscendingFacts(n.outgoing);
    var es := NodeEdges(n);
    forall e ensures e in es <==> e.source == n.id && e.destination in n.outgoing {
      if e.source == n.id && e.destination in n.outgoing {
        var k :| 0 <= k < |order| && order[k] == e.destination;
        assert es[k] == e;
      }
    }
    forall j, k | 0 <= j < k < |es| ensures es[j] != es[k] {
      assert order[j] < order[k];
    }
  }

  /** With dense ids, the list holds exactly the edge view, each edge once,
      with sources ascending, and its length is the sum of the out-degrees. */
  lemma {:induction false} EdgeListFacts(nodes: seq<Node>)
    requires DenseIds(nodes)
    ensures forall e :: e in EdgeList(nodes) <==> e in EdgeSet(nodes)
    ensures forall e :: e in EdgeList(nodes) ==> e.source < |nodes|
    ensures NoDuplicates(EdgeList(nodes)) && SourcesAscending(EdgeList(nodes))
    ensures |EdgeList(nodes)| == OutDegreeSum(nodes)
  {
    if |nodes| > 0 {
      var prefix := nodes[..|nodes| - 1];
      var last := nodes[|nodes| - 1];
      assert DenseIds(prefix);
      EdgeListFacts(prefix);
      NodeEdgesFacts(last);
      ConcatEdgeLists(EdgeList(prefix), NodeEdges(last), |nodes| - 1);
      forall e ensures e in EdgeList(nodes) <==> e in EdgeSet(nodes) {
        if e.source == last.id && e.destination in last.outgoing {
          assert e == Edge(last.id, e.destination);
        }
      }
    }
  }

  /** The view never holds a self pair, and every edge is recorded on both endpoints. */
  lemma EdgeViewMirrored(s: Store, e: Edge)
    requires WellFormed(s)
    ensures e in EdgeSet(s.nodes) ==> e.source != e.destination
    ensures e in EdgeSet(s.nodes) <==>
            e.source < |s.nodes| && e.destination < |s.nodes| && e.source in s.nodes[e.destination].incoming
  {
    DenseEdgeSetMembership(s.nodes, e);
    if e.source < |s.nodes| && e.destination < |s.nodes| && e.source in s.nodes[e.destination].incoming {
      assert e.destination in s.nodes[e.source].outgoing;
    }
    if e in EdgeSet(s.nodes) {
      assert e.destination in s.nodes[e.source].outgoing;
    }
  }

  /** The view has exactly as many edges as the outgoing sets have members. */
  lemma {:induction false} EdgeSetSize(nodes: seq<Node>)
    requires DenseIds(nodes)
    ensures |EdgeSet(nodes)| == OutDegreeSum(nodes)
  {
    if |nodes| > 0 {
      var prefix := nodes[..|nodes| - 1];
      var last := nodes[|nodes| - 1];
      assert DenseIds(prefix);
      EdgeSetSize(prefix);
      forall e | e in EdgeSet(prefix) ensures e !in OutEdges(last) {
        DenseEdgeSetMembership(prefix, e);
      }
      OutEdgesSize(last.id, last.outgoing);
    }
  }

  lemma {:induction false} OutEdgesSize(id: nat, out: set<nat>)
    ensures |(set d | d in out :: Edge(id, d))| == |out|
    decreases out
  {
    if out != {} {
      var x :| x in out;
      var rest := out - {x};
      OutEdgesSize(id, rest);
      assert (set d | d in out :: Edge(id, d)) == (set d | d in rest :: Edge(id, d)) + {Edge(id, x)};
    }
  }

  // ---------------------------------------------------------------------
  // State transitions

  /** The store of `Graph::new`. */
  function Empty(): Store
  {
    Store([], map[])
  }

  /** `add_node`: push a node whose id is the old length, and point the name at it. */
  function InsertNode(s: Store, entry: NodeEntry): Store
  {
    var id := |s.nodes|;
    Store(s.nodes + [Node(id, entry.country, InitPhysics(entry.position), {}, {})],
          s.lookup[entry.name := id])
  }

  /** `add_edge`: a no-op for a self-loop; otherwise record the edge on both endpoints. */
  function InsertEdge(s: Store, from: nat, to: nat): Store
    requires from == to || (from < |s.nodes| && to < |s.nodes|)
  {
    if from == to then s
    else
      var nodes := s.nodes[from := s.nodes[from].(outgoing := s.nodes[from].outgoing + {to})];
      Store(nodes[to := nodes[to].(incoming := nodes[to].incoming + {from})], s.lookup)
  }

  /** `add_edge_by_name`: a no-op for equal or unknown names; otherwise `add_edge` on the looked-up ids. */
  function InsertEdgeByName(s: Store, fromName: string, toName: string): Store
    requires LookupSound(s)
  {
    if fromName == toName then s
    else if fromName in s.lookup && toName in s.lookup then InsertEdge(s, s.lookup[fromName], s.lookup[toName])
    else s
  }

  /** `add_node` called once per entry, in order. */
  function InsertNodes(s: Store, entries: seq<NodeEntry>): Store
    decreases |entries|
  {
    if entries == [] then s else InsertNodes(InsertNode(s, entries[0]), entries[1..])
  }

  // ---------------------------------------------------------------------
  // Properties of add_node

  lemma EmptyWellFormed()
    ensures WellFormed(Empty()) && EdgeSet(Empty().nodes) == {}
  {
  }

  /** Appending a node with the next id and no neighbours keeps the node
      part of the invariant and adds no edge. */
  lemma AppendIsolatedNode(nodes: seq<Node>, n: Node)
    requires DenseIds(nodes) && Mirrored(nodes) && NoSelfLoops(nodes)
    requires n.id == |nodes| && n.outgoing == {} && n.incoming == {}
    ensures DenseIds(nodes + [n]) && Mirrored(nodes + [n]) && NoSelfLoops(nodes + [n])
    ensures EdgeSet(nodes + [n]) == EdgeSet(nodes)
  {
    var r := nodes + [n];
    assert r[..|nodes|] == nodes;
    assert OutEdges(n) == {};
    forall x: nat, d: nat | x < |r| && d in r[x].outgoing
      ensures d < |r| && x in r[d].incoming
    {
      assert r[x] == nodes[x];
      assert r[d] == nodes[d];
    }
    forall d: nat, x: nat | d < |r| && x in r[d].incoming
      ensures x < |r| && d in r[x].outgoing
    {
      assert r[d] == nodes[d];
      assert r[x] == nodes[x];
    }
  }

  /** The new node gets the old length as id, empty adjacency sets and the
      name; existing nodes and the edge view are untouched; the invariant is kept. */
  lemma InsertNodeEffect(s: Store, entry: NodeEntry)
    requires WellFormed(s)
    ensures var r := InsertNode(s, entry);
      && |r.nodes| == |s.nodes| + 1
      && r.nodes[..|s.nodes|] == s.nodes
      && r.nodes[|s.nodes|].id == |s.nodes|
      && r.nodes[|s.nodes|].country == entry.country
      && r.nodes[|s.nodes|].outgoing == {} && r.nodes[|s.nodes|].incoming == {}
      && entry.name in r.lookup && r.lookup[entry.name] == |s.nodes|
      && (forall n :: n in s.lookup && n != entry.name ==> n in r.lookup && r.lookup[n] == s.lookup[n])
      && EdgeSet(r.nodes) == EdgeSet(s.nodes)
      && WellFormed(r)
  {
    var r := InsertNode(s, entry);
    var n := Node(|s.nodes|, entry.country, InitPhysics(entry.position), {}, {});
    assert r.nodes == s.nodes + [n];
    AppendIsolatedNode(s.nodes, n);
    assert r.nodes[..|s.nodes|] == s.nodes;
    assert LookupSound(r);
  }

  /** A repeated name is re-pointed at the new node: the older node stays in
      the vector but no name reaches it any more. */
  lemma OverwrittenNodeUnreachable(s: Store, entry: NodeEntry)
    requires WellFormed(s)
    requires entry.name in s.lookup
    ensures var r := InsertNode(s, entry); var old_id := s.lookup[entry.name];
      && old_id < |r.nodes| && r.nodes[old_id] == s.nodes[old_id]
      && forall n :: n in r.lookup ==> r.lookup[n] != old_id
  {
    var r := InsertNode(s, entry);
    var old_id := s.lookup[entry.name];
    forall n | n in r.lookup ensures r.lookup[n] != old_id {
      if n != entry.name {
        assert r.lookup[n] == s.lookup[n];
      }
    }
  }

  /** n calls of `add_node` hand out the ids |s.nodes| .. |s.nodes| + n - 1
      in call order, and with distinct names each name resolves to its node. */
  lemma {:induction false} InsertNodesDense(s: Store, entries: seq<NodeEntry>)
    requires WellFormed(s)
    ensures var r := InsertNodes(s, entries);
      && WellFormed(r)
      && |r.nodes| == |s.nodes| + |entries|
      && r.nodes[..|s.nodes|] == s.nodes
      && forall k :: 0 <= k < |entries| ==>
           r.nodes[|s.nodes| + k].id == |s.nodes| + k && r.nodes[|s.nodes| + k].country == entries[k].country
    decreases |entries|
  {
    if entries != [] {
      var t := InsertNode(s, entries[0]);
      InsertNodeEffect(s, entries[0]);
      InsertNodesDense(t, entries[1..]);
      var r := InsertNodes(t, entries[1..]);
      assert r.nodes[..|s.nodes|] == r.nodes[..|t.nodes|][..|s.nodes|];
      forall k | 0 <= k < |entries|
        ensures r.nodes[|s.nodes| + k].id == |s.nodes| + k && r.nodes[|s.nodes| + k].country == entries[k].country
      {
        if k == 0 {
          assert r.nodes[|s.nodes|] == r.nodes[..|t.nodes|][|s.nodes|];
        } else {
          assert |s.nodes| + k == |t.nodes| + (k - 1);
          assert entries[k] == entries[1..][k - 1];
        }
      }
    }
  }

  /** No two entries carry the same name. */
  ghost predicate DistinctNames(entries: seq<NodeEntry>)
  {
    forall j, k :: 0 <= j < k < |entries| ==> entries[j].name != entries[k].name
  }

  /** After adding nodes under distinct names, each name resolves to the id its node received. */
  lemma {:induction false} InsertNodesLookup(s: Store, entries: seq<NodeEntry>)
    requires DistinctNames(entries)
    ensures forall k :: 0 <= k < |entries| ==>
      entries[k].name in InsertNodes(s, entries).lookup &&
      InsertNodes(s, entries).lookup[entries[k].name] == |s.nodes| + k
    decreases |entries|
  {
    if entries != [] {
      var t := InsertNode(s, entries[0]);
      var rest := entries[1..];
      assert DistinctNames(rest) by {
        forall j, k | 0 <= j < k < |rest| ensures rest[j].name != rest[k].name {
          assert rest[j] == entries[j + 1] && rest[k] == entries[k + 1];
        }
      }
      InsertNodesLookup(t, rest);
      forall m | 0 <= m < |rest| ensures rest[m].name != entries[0].name {
        assert rest[m] == entries[m + 1];
      }
      InsertNodesKeepsName(t, rest, entries[0].name);
      forall k | 0 < k < |entries|
        ensures entries[k].name in InsertNodes(t, rest).lookup &&
                InsertNodes(t, rest).lookup[entries[k].name] == |s.nodes| + k
      {
        assert entries[k] == rest[k - 1];
      }
    }
  }

  /** Adding nodes under other names leaves a name's lookup entry as it was. */
  lemma {:induction false} InsertNodesKeepsName(s: Store, entries: seq<NodeEntry>, name: string)
    requires name in s.lookup
    requires forall k :: 0 <= k < |entries| ==> entries[k].name != name
    ensures name in InsertNodes(s, entries).lookup
    ensures InsertNodes(s, entries).lookup[name] == s.lookup[name]
    decreases |entries|
  {
    if entries != [] {
      var t := InsertNode(s, entries[0]);
      forall k | 0 <= k < |entries[1..]| ensures entries[1..][k].name != name {
        assert entries[1..][k] == entries[k + 1];
      }
      InsertNodesKeepsName(t, entries[1..], name);
    }
  }

  // ---------------------------------------------------------------------
  // Properties of add_edge and add_edge_by_name

  /** For distinct in-range ids, `to` joins `from`'s outgoing set and `from`
      joins `to`'s incoming set; nothing else changes. */
  lemma InsertEdgeEffect(s: Store, from: nat, to: nat)
    requires from != to && from < |s.nodes| && to < |s.nodes|
    ensures var r := InsertEdge(s, from, to);
      && |r.nodes| == |s.nodes| && r.lookup == s.lookup
      && r.nodes[from].outgoing == s.nodes[from].outgoing + {to}
      && r.nodes[from].incoming == s.nodes[from].incoming
      && r.nodes[to].incoming == s.nodes[to].incoming + {from}
      && r.nodes[to].outgoing == s.nodes[to].outgoing
      && (forall i :: 0 <= i < |s.nodes| ==>
            r.nodes[i].id == s.nodes[i].id && r.nodes[i].country == s.nodes[i].country &&
            r.nodes[i].physics == s.nodes[i].physics)
      && (forall i :: 0 <= i < |s.nodes| && i != from && i != to ==> r.nodes[i] == s.nodes[i])
  {
  }

  /** `add_edge` keeps the invariant (dense ids, mirrored sets, no self-loops, sound lookup). */
  lemma InsertEdgeWellFormed(s: Store, from: nat, to: nat)
    requires WellFormed(s)
    requires from == to || (from < |s.nodes| && to < |s.nodes|)
    ensures WellFormed(InsertEdge(s, from, to))
  {
    if from != to {
      var r := InsertEdge(s, from, to);
      InsertEdgeEffect(s, from, to);
      forall x: nat, d: nat | x < |r.nodes| && d in r.nodes[x].outgoing
        ensures d < |r.nodes| && x in r.nodes[d].incoming
      {
        if x == from && d == to {
        } else {
          assert d in s.nodes[x].outgoing;
          assert d < |s.nodes| && x in s.nodes[d].incoming;
          assert s.nodes[d].incoming <= r.nodes[d].incoming;
        }
      }
      forall d: nat, x: nat | d < |r.nodes| && x in r.nodes[d].incoming
        ensures x < |r.nodes| && d in r.nodes[x].outgoing
      {
        if d == to && x == from {
        } else {
          assert x in s.nodes[d].incoming;
          assert x < |s.nodes| && d in s.nodes[x].outgoing;
          assert s.nodes[x].outgoing <= r.nodes[x].outgoing;
        }
      }
    }
  }

  /** Repeating `add_edge` changes nothing. */
  lemma InsertEdgeIdempotent(s: Store, from: nat, to: nat)
    requires from == to || (from < |s.nodes| && to < |s.nodes|)
    ensures InsertEdge(InsertEdge(s, from, to), from, to) == InsertEdge(s, from, to)
  {
    if from != to {
      var r := InsertEdge(s, from, to);
      var rr := InsertEdge(r, from, to);
      InsertEdgeEffect(s, from, to);
      InsertEdgeEffect(r, from, to);
      assert rr.nodes[from] == r.nodes[from];
      assert rr.nodes[to] == r.nodes[to];
      assert rr.nodes == r.nodes;
    }
  }

  /** `add_edge` adds exactly the pair (from, to) to the edge view, or nothing for a self-loop. */
  lemma InsertEdgeEdges(s: Store, from: nat, to: nat)
    requires DenseIds(s.nodes)
    requires from == to || (from < |s.nodes| && to < |s.nodes|)
    ensures EdgeSet(InsertEdge(s, from, to).nodes) ==
            if from == to then EdgeSet(s.nodes) else EdgeSet(s.nodes) + {Edge(from, to)}
  {
    if from != to {
      var r := InsertEdge(s, from, to);
      InsertEdgeEffect(s, from, to);
      assert DenseIds(r.nodes);
      forall e ensures e in EdgeSet(r.nodes) <==> e in EdgeSet(s.nodes) + {Edge(from, to)} {
        DenseEdgeSetMembership(s.nodes, e);
        DenseEdgeSetMembership(r.nodes, e);
      }
    }
  }

  /** `add_edge_by_name` adds the edge between the looked-up ids when the
      names differ and are both known, and otherwise changes nothing. */
  lemma InsertEdgeByNameEffect(s: Store, fromName: string, toName: string)
    requires WellFormed(s)
    ensures var r := InsertEdgeByName(s, fromName, toName);
      && WellFormed(r)
      && r.lookup == s.lookup && |r.nodes| == |s.nodes|
      && (fromName == toName || fromName !in s.lookup || toName !in s.lookup ==> r == s)
      && (fromName != toName && fromName in s.lookup && toName in s.lookup ==>
            r == InsertEdge(s, s.lookup[fromName], s.lookup[toName]) &&
            s.lookup[fromName] != s.lookup[toName] &&
            EdgeSet(r.nodes) == EdgeSet(s.nodes) + {Edge(s.lookup[fromName], s.lookup[toName])})
  {
    if fromName != toName && fromName in s.lookup && toName in s.lookup {
      var from, to := s.lookup[fromName], s.lookup[toName];
      InsertEdgeWellFormed(s, from, to);
      InsertEdgeEdges(s, from, to);
    }
  }
}
