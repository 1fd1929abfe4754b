# Country graph store and factor tree, in Dafny

This project models the graph store of the `emerge` force-directed graph
viewer, plus the factor-tree example built on top of it.

- **The graph store.** A `Graph` holds two fields:
  - a vector of nodes, where the node at index `i` carries id `i`;
  - a map from a country name to a node id.

  Each node keeps a set of outgoing neighbour ids and a set of incoming ones.
  - `add_node` hands out ids in order.
  - `add_edge` and `add_edge_by_name` record a directed edge on both of its endpoints.
  - `get_all_edges` lists the edges, node by node.
  - `build_graph` builds a fixed four-country graph.
- **Two copies.** The repository holds two near-identical copies of the store: `src/graph.rs` and `src/graph_builder.rs`.
  - `adjacency.dfy` (module `Adjacency`) holds what the two copies share: the node and edge records, the store invariant, the edge view, and the store transitions as functions, with their properties proved as lemmas.
  - `graph.dfy` (module `Graph`) and `graph_builder.dfy` (module `GraphBuilder`) each hold a `class Graph`. Its `nodes` and `nodeLookup` fields are updated in place, and every method is proved against the transition it performs.
  - `get_all_edges` keeps its nested loops. The inner loop walks a node's outgoing set in a fixed iteration order, which the model takes to be ascending. The result is a function of the graph (`EdgeList`), so repeated calls on an unchanged graph agree.
- **The factor tree.** `factor_tree.dfy` (module `FactorTree`) models `compute_factor_tree` and `build_factor_tree` from `examples/factor_tree.rs`.
  - The search for a divisor, downward from the integer square root, is a recursive function. The loop that performs it is proved equal to that function.
  - The graph the example fills in uses an API (`add_node(&str)`, `add_directed_edge`) that is not part of this model. It is therefore modelled as a recorder of the calls made on it, keyed by the integer whose decimal string the source uses as the label.
  - The proofs show that recursion terminates and that the factors multiply back to the value, smaller factor first. They also show that edges run from a value to its proper divisors, and that the leaves of the tree (the nodes added with no edge leaving them) are a prime factorisation.

## Model

| member | source | states |
|---|---|---|
| Graph.Graph.constructor | src/graph.rs:17-22 | a new graph has no nodes and no names, and satisfies the store invariant |
| Graph.Graph.AddNode | src/graph.rs:24-35 | the new node's id is the old node count; the name maps to it; the edge view is unchanged; the invariant is kept |
| Graph.Graph.AddEdge | src/graph.rs:37-44 | a self-loop changes nothing; otherwise, with both ids in range (the source unwraps them), the edge view gains exactly (from, to); the invariant is kept |
| Graph.Graph.AddEdgeByName | src/graph.rs:45-56 | equal or unknown names change nothing; otherwise the edge between the looked-up ids is added; the lookup and node count are unchanged |
| Graph.Graph.AppendOutEdges | src/graph.rs:62-67 | the inner loop appends node i's block of edges: one per member of its outgoing set, in the set's iteration order |
| Graph.Graph.GetAllEdges | src/graph.rs:58-71 | the list is `EdgeList` of the nodes, a function of the graph, so two calls on an unchanged graph return the same list; it holds exactly the edge view, with no duplicates, no (x, x) pairs and sources ascending; its length is the sum of out-degrees; the graph is not modified |
| Graph.AddCountries | src/graph.rs:77-108 | the four `add_node` calls give ids Albania=0, Cambodia=1, Cameroon=2, Nigeria=3 and no edges |
| Graph.AddBorders | src/graph.rs:109-111 | the three `add_edge_by_name` calls give exactly the edges 1→0, 2→3, 3→0 |
| Graph.BuildGraph | src/graph.rs:74-114 | four nodes, the lookup Albania=0, Cambodia=1, Cameroon=2, Nigeria=3, and exactly the edges 1→0, 2→3, 3→0 |
| GraphBuilder.Graph.constructor | src/graph_builder.rs:109-114 | as `Graph.Graph.constructor`, for the duplicate `Graph` |
| GraphBuilder.Graph.AddNode | src/graph_builder.rs:116-127 | as `Graph.Graph.AddNode`: dense id, name mapped (overwriting), new node with empty sets |
| GraphBuilder.Graph.AddEdge | src/graph_builder.rs:129-135 | as `Graph.Graph.AddEdge` |
| GraphBuilder.Graph.AddEdgeByName | src/graph_builder.rs:137-148 | as `Graph.Graph.AddEdgeByName` |
| GraphBuilder.Graph.AppendOutEdges | src/graph_builder.rs:154-159 | as `Graph.Graph.AppendOutEdges` |
| GraphBuilder.Graph.GetAllEdges | src/graph_builder.rs:150-163 | as `Graph.Graph.GetAllEdges` |
| GraphBuilder.AddCountries | src/graph_builder.rs:208-239 | as `Graph.AddCountries` |
| GraphBuilder.AddBorders | src/graph_builder.rs:240-242 | as `Graph.AddBorders` |
| GraphBuilder.BuildGraph | src/graph_builder.rs:205-245 | four nodes and exactly the edges Cambodia→Albania, Cameroon→Nigeria, Nigeria→Albania |
| Adjacency.EmptyWellFormed | src/graph.rs:17-22 | the empty store satisfies the invariant (dense ids, mirrored sets, no self-loops, sound lookup) and has no edges |
| Adjacency.InsertNodeEffect | src/graph.rs:24-35 | `add_node` gives the new node id = old length, the given country data and empty sets; the name maps to it; other names and existing nodes are untouched; the edge view is unchanged; the invariant is kept |
| Adjacency.OverwrittenNodeUnreachable | src/graph.rs:27 | re-adding a name re-points it: the older node stays in the vector unchanged, but no name maps to it any more |
| Adjacency.InsertNodesDense | src/graph.rs:24-35 | n calls of `add_node` append n nodes with ids \|s\|..\|s\|+n-1 and their countries in call order, keep the earlier nodes, and keep the invariant |
| Adjacency.InsertNodesLookup | src/graph.rs:24-35 | after adding nodes under distinct names, each name resolves to the id its node received |
| Adjacency.InsertNodesKeepsName | src/graph.rs:27 | adding nodes under other names leaves an existing name's id unchanged |
| Adjacency.InsertEdgeEffect | src/graph.rs:37-44 | for distinct in-range ids, `to` joins `from`'s outgoing set and `from` joins `to`'s incoming set; every other set, node and the lookup are unchanged |
| Adjacency.InsertEdgeWellFormed | src/graph.rs:37-44 | `add_edge` keeps dense ids, mirrored sets, no self-loops and a sound lookup |
| Adjacency.InsertEdgeIdempotent | src/graph.rs:37-44 | repeating `add_edge` with the same ids changes nothing |
| Adjacency.InsertEdgeEdges | src/graph.rs:37-44 | `add_edge` adds exactly the pair (from, to) to the edge view, or nothing for a self-loop |
| Adjacency.InsertEdgeByNameEffect | src/graph.rs:45-56 | equal or unknown names leave the store unchanged; otherwise the result is `add_edge` on the two looked-up ids, which are distinct and in range; the lookup is unchanged and the invariant kept |
| Adjacency.EdgeSetMembership | src/graph.rs:58-71 | the edge view holds (s, d) exactly when some node with id s lists d as an outgoing neighbour |
| Adjacency.DenseEdgeSetMembership | src/graph.rs:58-71 | with dense ids, (s, d) is an edge exactly when s is in range and d is in node s's outgoing set |
| Adjacency.EdgeViewMirrored | src/graph.rs:58-71 | in a well-formed store the edge view has no self pair, and (s, d) is an edge exactly when s is in node d's incoming set |
| Adjacency.EdgeSetSize | src/graph.rs:58-71 | the edge view has exactly as many edges as the sum of the outgoing-set sizes |
| Adjacency.AscendingFacts | src/graph.rs:62 | the iteration order of an outgoing set lists every member exactly once, in ascending order (the model's fixed order for a `HashSet`) |
| Adjacency.NodeEdgesFacts | src/graph.rs:62-67 | one node's block holds the pairs (node id, d) for d in its outgoing set, each once; its length is the set's size |
| Adjacency.EdgeListFacts | src/graph.rs:58-71 | with dense ids, the list `get_all_edges` builds holds exactly the edge view, each edge once, sources ascending, and its length is the sum of out-degrees |
| FactorTree.LabelGraph.constructor | examples/factor_tree.rs:4 | a new graph has recorded no call |
| FactorTree.LabelGraph.AddNode | examples/factor_tree.rs:16 | records one node addition and nothing else |
| FactorTree.LabelGraph.AddDirectedEdge | examples/factor_tree.rs:25-26 | records one directed edge and nothing else |
| FactorTree.ISqrtSpec | examples/factor_tree.rs:18 | the integer square root r satisfies r² ≤ n < (r+1)² |
| FactorTree.LargestFactorFromSpec | examples/factor_tree.rs:18-20 | searching down from a candidate finds a divisor ≥ 2 with no larger divisor up to the candidate, or finds none in [2, candidate] |
| FactorTree.LargestFactorSpec | examples/factor_tree.rs:18-20 | the divisor chosen is the largest c ≥ 2 with c² ≤ value dividing value; none is chosen exactly when no such c exists |
| FactorTree.SearchFactor | examples/factor_tree.rs:18-19 | the downward loop over candidates stops at the same divisor as the search function; any divisor it returns is ≥ 2 and divides value |
| FactorTree.FactorSplit | examples/factor_tree.rs:20-21 | a divisor d ≥ 2 with d² ≤ value splits value as d·(value/d), with 2 ≤ d ≤ value/d < value |
| FactorTree.SplitFactors | examples/factor_tree.rs:20-21 | the two factors of a split multiply back to value, the first no larger than the second |
| FactorTree.SplitCalls | examples/factor_tree.rs:20-29 | both factors lie in [2, value), so recursion terminates; the calls are the value's node, both factor nodes, both edges, then the two subtrees |
| FactorTree.ComputeFactorTree | examples/factor_tree.rs:11-33 | the calls made on the graph are exactly the old calls followed by the factor tree of value |
| FactorTree.BuildFactorTree | examples/factor_tree.rs:3-9 | a fresh graph holding exactly the factor tree of value |
| FactorTree.FactorTreeShape | examples/factor_tree.rs:12-16 | value 1 makes no call and only value 1 does; any other value is added first; a value with no divisor in range, including every prime, adds only its own node and no edge |
| FactorTree.NoFactorIffPrime | examples/factor_tree.rs:18-32 | for value ≥ 2 the search finds no divisor exactly when value is prime |
| FactorTree.FactorEdgesDescend | examples/factor_tree.rs:25-26 | every edge goes from a value to a proper divisor of it: target ≥ 2, below the source, and dividing it |
| FactorTree.FactorNodesDivide | examples/factor_tree.rs:16-29 | for value ≥ 2 every node label is a divisor of value between 2 and value |
| FactorTree.EdgesFollowNodes | examples/factor_tree.rs:16-26 | both labels of every edge are added as nodes before the edge |
| FactorTree.LeavesFactorize | examples/factor_tree.rs:11-33 | the leaves of the tree multiply back to value, and for value ≥ 2 every leaf is prime |
| FactorTree.LeavesAreTreeLeaves | examples/factor_tree.rs:11-33 | a value is a leaf exactly when the tree adds its node and adds no edge leaving it |
| FactorTree.LeavesAdded | examples/factor_tree.rs:12-18 | every leaf is added as a node, and the divisor search found nothing for it |
| FactorTree.EdgeSourcesSplit | examples/factor_tree.rs:18-26 | an edge leaves only a value for which the search found a divisor |
| FactorTree.NodesSplitOrLeaf | examples/factor_tree.rs:11-33 | every node added either has the edge to its smaller factor or is a leaf |

## Left out

- `render_graph` (src/graph.rs), src/renderer.rs, src/graph_renderer.rs and src/physics.rs are not modelled. They are frame loops, drawing and floating-point spring simulation over an entity store.
- `PhysicsData::init` draws a random position inside the screen. `AddNode` and `BuildGraph` take that position as a parameter. The rest of the payload (zero mass, velocity and force, radius 15) is modelled as written.
- The `country_chain_finder` functions are not modelled: they do CSV file reading, printing and panics. Neither is the wiring in src/main.rs and the example mains.
- `build_graph` of src/graph_builder.rs builds `CountryNode` values. They are modelled by the same `Node` record as the `Node` of src/builder.rs, because the two types have the same fields.
- FactorTree.ComputeFactorTree:
  - The graph API the example calls is not part of this model, so its effect on a real graph is not modelled. The model fixes the sequence of calls made.
  - Labels are the integers themselves rather than their decimal strings. The conversion is one-to-one.
  - Whether a repeated `add_node` of the same label creates a second node is up to that unseen API.
- FactorTree.ComputeFactorTree: the source computes the search start as `(value as f32).sqrt() as i32`. The model uses the exact integer square root. That agrees for small values, but f32 rounding is not modelled for values near the top of the 32-bit range. A negative value gives NaN in the source, which casts to 0, and the model's search start for it is 0.
- FactorTree.ComputeFactorTree: the source's `for` loop with an early `return` inside is written as the search (`SearchFactor`) followed by the branch for the divisor found. The calls made are the same.
- Integer widths (`usize` ids, `i32` values) are unbounded in the model. Ids come from the node count, and no arithmetic is done on them.
- Graph.Graph.GetAllEdges: the source walks each outgoing `HashSet` in its own order. That order is unspecified but fixed while the set is unchanged. The model fixes it as ascending order. The edges, their count, the order of sources and the repeatability of the result do not depend on that choice; the order of destinations within one node does.
- GraphBuilder.Graph.GetAllEdges: the same choice of ascending order for each node's `HashSet`, for the same reason.
- Adding a node under a name that is already present overwrites the lookup entry, as the code does. The code has no duplicate-name error, so none is modelled.
- The code has no undirected edges and no separate building and simulating phases, so neither is modelled.
