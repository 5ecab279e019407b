/**
 * `NetworkXGraphStorage`: an undirected property graph held in a networkx
 * `Graph`.  The state mirrors networkx's own: `node` maps each node id to its
 * attribute dictionary (in insertion order), and `adj[u]` maps each neighbour
 * `v` of `u` to the edge's attribute dictionary (in the order the neighbours
 * were linked).  networkx stores one dictionary per edge under both `adj[u][v]`
 * and `adj[v][u]`; here that sharing is the invariant that both entries are
 * equal.
 */
module GraphStore {
  import opened Wrappers
  import opened Dicts
  import opened Json
  import opened StorageErrors
  import opened GraphQuery

  type NodeId = string

  datatype Graph = Graph(node: Dict<NodeId, Props>, adj: map<NodeId, Dict<NodeId, Props>>)

  /** `v in G.neighbors(u)`. */
  predicate Adjacent(g: Graph, u: NodeId, v: NodeId)
  {
    u in g.adj && v in g.adj[u].m
  }

  /** `G.edges[u, v]`: the attribute dictionary of an edge. */
  function EdgeProps(g: Graph, u: NodeId, v: NodeId): Props
    requires Adjacent(g, u, v)
  {
    g.adj[u].m[v]
  }

  /**
   * `list(G.neighbors(n))` for a node of the graph.  For an absent node the
   * model gives `[]` to stay total; networkx would raise `NetworkXError`
   * there, but `get_neighbors` checks the node first and never asks.
   */
  function NbrsOf(g: Graph, n: NodeId): (r: seq<NodeId>)
    ensures n !in g.adj ==> r == []
    ensures AdjacencyWellFormed(g) ==> Distinct(r)
  {
    if n in g.adj then g.adj[n].keys else []
  }

  /**
   * The representation invariant: well-formed dictionaries, one adjacency
   * dictionary per node, and every edge recorded at both ends with one
   * attribute dictionary.
   */
  ghost predicate Valid(g: Graph)
  {
    && g.node.Valid()
    && g.adj.Keys == g.node.m.Keys
    && (forall n :: n in g.node.m ==> g.node.m[n].Valid())
    && AdjacencyWellFormed(g)
    && (forall u, v :: Adjacent(g, u, v) ==> Adjacent(g, v, u) && EdgeProps(g, v, u) == EdgeProps(g, u, v))
    && (forall u, v :: Adjacent(g, u, v) ==> EdgeProps(g, u, v).Valid())
  }

  /** Every adjacency dictionary is a well-formed dictionary. */
  ghost predicate AdjacencyWellFormed(g: Graph)
  {
    forall u :: u in g.adj ==> g.adj[u].Valid()
  }

  /** `nx.Graph()`: no nodes, no edges. */
  function EmptyGraph(): (g: Graph)
    ensures Valid(g)
    ensures g.node.keys == []
  {
    Graph(Empty(), map[])
  }

  /** Two graphs agree on which pairs are linked and on every edge's attributes. */
  ghost predicate SameEdges(g: Graph, h: Graph)
  {
    && (forall u, v :: Adjacent(g, u, v) <==> Adjacent(h, u, v))
    && (forall u, v :: Adjacent(g, u, v) ==> EdgeProps(g, u, v) == EdgeProps(h, u, v))
  }

  /** The attributes of `id`, or `{}` for a node that does not exist yet. */
  function CurrentProps(g: Graph, id: NodeId): (p: Props)
    requires Valid(g)
    ensures p.Valid()
  {
    if id in g.node.m then g.node.m[id] else Empty()
  }

  /**
   * `add_node(id, properties)`: creates `id` with the properties, or merges
   * them into an existing node's (new keys win, other keys stay); no other
   * node and no edge changes.
   */
  function AddNode(g: Graph, id: NodeId, properties: Option<Props>): (r: Graph)
    requires Valid(g)
    requires properties.Some? ==> properties.value.Valid()
    ensures Valid(r)
    ensures r.node.m.Keys == g.node.m.Keys + {id}
    ensures r.node.m[id].m == CurrentProps(g, id).m + PropsOrEmpty(properties).m
    ensures forall n :: n in g.node.m && n != id ==> r.node.m[n] == g.node.m[n]
    ensures forall n :: n in g.adj ==> n in r.adj && r.adj[n] == g.adj[n]
    ensures id !in g.adj ==> r.adj[id] == Empty()
  {
    var merged := Merge(CurrentProps(g, id), PropsOrEmpty(properties));
    PutFacts(g.node, id, merged);
    SetNode(g, id, merged)
  }

  /** The named parameters of networkx's `Graph.add_node(self, node_for_adding, **attr)`. */
  const AddNodeParams: set<string> := {"self", "node_for_adding"}

  /** The named parameters of networkx's `Graph.add_edge(self, u_of_edge, v_of_edge, **attr)`. */
  const AddEdgeParams: set<string> := {"self", "u_of_edge", "v_of_edge"}

  /**
   * Python's binding of `**properties` against a signature: a property named
   * like one of the parameters `params` is a second value for it.
   */
  predicate Clashes(properties: Option<Props>, params: set<string>)
  {
    properties.Some? && !(properties.value.m.Keys !! params)
  }

  /**
   * The storage's `add_node(node_id, properties)`, which calls
   * `G.add_node(node_id, **(properties or {}))`: `TypeError` when a property
   * is named `self` or `node_for_adding`, and `AddNode` otherwise.
   */
  function StoreAddNode(g: Graph, id: NodeId, properties: Option<Props>): (r: Result<Graph, StorageError>)
    requires Valid(g)
    requires properties.Some? ==> properties.value.Valid()
    ensures r.Failure? <==> properties.Some? && ("self" in properties.value.m || "node_for_adding" in properties.value.m)
    ensures r.Failure? ==> r.error == DuplicateArgument
    ensures r.Success? ==> Valid(r.value) && id in r.value.node.m
    ensures r.Success? ==> r.value.node.m[id].m == CurrentProps(g, id).m + PropsOrEmpty(properties).m
    ensures r.Success? ==> r.value == AddNode(g, id, properties)
  {
    if Clashes(properties, AddNodeParams) then Failure(DuplicateArgument) else Success(AddNode(g, id, properties))
  }

  lemma PutFacts(d: Dict<NodeId, Props>, id: NodeId, p: Props)
    requires d.Valid()
    ensures Put(d, id, p).m.Keys == d.m.Keys + {id}
    ensures Put(d, id, p).m[id] == p
    ensures forall n :: n in d.m && n != id ==> Put(d, id, p).m[n] == d.m[n]
  {
  }

  /** Gives `id` the attribute dictionary `p`, creating it without neighbours if it is new. */
  function SetNode(g: Graph, id: NodeId, p: Props): (r: Graph)
    requires Valid(g) && p.Valid()
    ensures Valid(r)
    ensures r.node == Put(g.node, id, p)
    ensures forall n :: n in g.adj ==> n in r.adj && r.adj[n] == g.adj[n]
    ensures id !in g.adj ==> r.adj[id] == Empty()
  {
    if id in g.node.m then
      ReplaceNodePropsValid(g, id, p);
      Graph(Put(g.node, id, p), g.adj)
    else
      NewNodeValid(g, id, p);
      Graph(Put(g.node, id, p), g.adj[id := Empty()])
  }

  lemma ReplaceNodePropsValid(g: Graph, id: NodeId, p: Props)
    requires Valid(g) && id in g.node.m && p.Valid()
    ensures Valid(Graph(Put(g.node, id, p), g.adj))
  {
    var r := Graph(Put(g.node, id, p), g.adj);
    assert forall u, v :: Adjacent(r, u, v) <==> Adjacent(g, u, v);
  }

  lemma NewNodeValid(g: Graph, id: NodeId, p: Props)
    requires Valid(g) && id !in g.node.m && p.Valid()
    ensures Valid(Graph(Put(g.node, id, p), g.adj[id := Empty()]))
  {
    var r := Graph(Put(g.node, id, p), g.adj[id := Empty()]);
    assert r.node.m == g.node.m[id := p];
    assert r.adj.Keys == r.node.m.Keys;
    assert forall n :: n in r.node.m ==> r.node.m[n].Valid();
    IsolatedNodeAdjacency(g, r, id);
  }

  /** Giving a new node an empty adjacency dictionary keeps every edge recorded at both ends. */
  lemma IsolatedNodeAdjacency(g: Graph, r: Graph, id: NodeId)
    requires AdjacencyWellFormed(g) && id !in g.adj && r.adj == g.adj[id := Empty()]
    requires forall u, v :: Adjacent(g, u, v) ==> Adjacent(g, v, u) && EdgeProps(g, v, u) == EdgeProps(g, u, v)
    requires forall u, v :: Adjacent(g, u, v) ==> EdgeProps(g, u, v).Valid()
    ensures AdjacencyWellFormed(r)
    ensures forall u, v :: Adjacent(r, u, v) ==> Adjacent(r, v, u) && EdgeProps(r, v, u) == EdgeProps(r, u, v)
    ensures forall u, v :: Adjacent(r, u, v) ==> EdgeProps(r, u, v).Valid()
  {
    forall u, v | Adjacent(r, u, v)
      ensures Adjacent(g, u, v) && r.adj[u] == g.adj[u]
    {
      assert u != id;
    }
  }

  /** `add_node` appends a new id to the node order and leaves the order alone otherwise. */
  lemma AddNodeOrder(g: Graph, id: NodeId, properties: Option<Props>)
    requires Valid(g)
    requires properties.Some? ==> properties.value.Valid()
    ensures id in g.node.m ==> AddNode(g, id, properties).node.keys == g.node.keys
    ensures id !in g.node.m ==> AddNode(g, id, properties).node.keys == g.node.keys + [id]
  {
  }

  /** `add_node` touches no edge and no neighbour list. */
  lemma AddNodeKeepsEdges(g: Graph, id: NodeId, properties: Option<Props>)
    requires Valid(g)
    requires properties.Some? ==> properties.value.Valid()
    ensures SameEdges(AddNode(g, id, properties), g)
    ensures forall n :: NbrsOf(AddNode(g, id, properties), n) == NbrsOf(g, n)
  {
    AdjacencyExtended(g, AddNode(g, id, properties));
  }

  /** A graph whose adjacency only adds empty dictionaries has the same edges and neighbour lists. */
  lemma AdjacencyExtended(g: Graph, r: Graph)
    requires forall n :: n in g.adj ==> n in r.adj && r.adj[n] == g.adj[n]
    requires forall n :: n in r.adj && n !in g.adj ==> r.adj[n] == Empty()
    ensures SameEdges(r, g)
    ensures forall n :: NbrsOf(r, n) == NbrsOf(g, n)
  {
  }

  /** The attributes `add_node` leaves on `id`: the old ones updated with the new ones. */
  lemma AddNodeExactProps(g: Graph, id: NodeId, properties: Option<Props>)
    requires Valid(g)
    requires properties.Some? ==> properties.value.Valid()
    ensures AddNode(g, id, properties).node.m[id] == Merge(CurrentProps(g, id), PropsOrEmpty(properties))
  {
  }

  /** networkx's implicit node creation in `add_edge`: a missing endpoint gets `{}` and no neighbours. */
  function EnsureNode(g: Graph, n: NodeId): (r: Graph)
    requires Valid(g)
    ensures Valid(r)
    ensures n in r.node.m
    ensures forall x :: x in g.node.m ==> x in r.node.m
    ensures n in g.node.m ==> r == g
  {
    if n in g.node.m then g else SetNode(g, n, Empty())
  }

  /** The implicit node creation links nothing and changes no neighbour list. */
  lemma EnsureNodeKeepsEdges(g: Graph, n: NodeId)
    requires Valid(g)
    ensures SameEdges(EnsureNode(g, n), g)
    ensures forall x :: NbrsOf(EnsureNode(g, n), x) == NbrsOf(g, x)
  {
    AdjacencyExtended(g, EnsureNode(g, n));
  }

  /** Both endpoints of `add_edge` created as needed, `u` first. */
  function Endpoints(g: Graph, u: NodeId, v: NodeId): (r: Graph)
    requires Valid(g)
    ensures Valid(r)
    ensures u in r.node.m && v in r.node.m
    ensures u in g.node.m && v in g.node.m ==> r == g
  {
    EnsureNode(EnsureNode(g, u), v)
  }

  /** Creating the endpoints links nothing: same edges, same neighbour lists. */
  lemma EndpointsKeepEdges(g: Graph, u: NodeId, v: NodeId)
    requires Valid(g)
    ensures SameEdges(Endpoints(g, u, v), g)
    ensures forall x :: NbrsOf(Endpoints(g, u, v), x) == NbrsOf(g, x)
    ensures Adjacent(Endpoints(g, u, v), u, v) <==> Adjacent(g, u, v)
    ensures CurrentEdgeProps(Endpoints(g, u, v), u, v) == CurrentEdgeProps(g, u, v)
  {
    EnsureNodeKeepsEdges(g, u);
    EnsureNodeKeepsEdges(EnsureNode(g, u), v);
  }

  /** The implicit node creation agrees with `add_node(n)` without properties. */
  lemma EnsureIsAddNode(g: Graph, n: NodeId)
    requires Valid(g)
    ensures EnsureNode(g, n).node == AddNode(g, n, None).node
  {
    var r := AddNode(g, n, None);
    assert Merge(CurrentProps(g, n), Empty()) == CurrentProps(g, n);
    AddNodeOrder(g, n, None);
    if n in g.node.m {
      assert r.node.m == g.node.m;
    } else {
      assert r.node.m == g.node.m[n := Empty()];
    }
  }

  /** True iff `{x, y}` and `{u, v}` are the same unordered pair. */
  predicate SamePair(x: NodeId, y: NodeId, u: NodeId, v: NodeId)
  {
    (x == u && y == v) || (x == v && y == u)
  }

  /** The attributes the edge `{u, v}` has, or `{}` if there is none yet. */
  function CurrentEdgeProps(g: Graph, u: NodeId, v: NodeId): (p: Props)
    requires Valid(g)
    ensures p.Valid()
  {
    if Adjacent(g, u, v) then EdgeProps(g, u, v) else Empty()
  }

  /**
   * The adjacency update of `add_edge` once both endpoints exist:
   * `adj[u][v] = d` then `adj[v][u] = d`.
   */
  function Link(g: Graph, u: NodeId, v: NodeId, d: Props): (r: Graph)
    requires Valid(g) && u in g.node.m && v in g.node.m && d.Valid()
    ensures Valid(r)
    ensures r.node == g.node
  {
    var a1 := g.adj[u := Put(g.adj[u], v, d)];
    var a2 := a1[v := Put(a1[v], u, d)];
    LinkValid(g, u, v, d);
    Graph(g.node, a2)
  }

  lemma LinkValid(g: Graph, u: NodeId, v: NodeId, d: Props)
    requires Valid(g) && u in g.node.m && v in g.node.m && d.Valid()
    ensures var a1 := g.adj[u := Put(g.adj[u], v, d)];
            Valid(Graph(g.node, a1[v := Put(a1[v], u, d)]))
  {
    var a1 := g.adj[u := Put(g.adj[u], v, d)];
    var r := Graph(g.node, a1[v := Put(a1[v], u, d)]);
    LinkAdjacency(g, u, v, d);
    assert r.adj.Keys == r.node.m.Keys;
    assert forall x :: x in r.adj ==> r.adj[x].Valid();
    SymmetricAfterLink(g, r, u, v, d);
  }

  /** Linking `{u, v}` in both directions with one well-formed dictionary keeps the edges symmetric. */
  lemma SymmetricAfterLink(g: Graph, r: Graph, u: NodeId, v: NodeId, d: Props)
    requires forall x, y :: Adjacent(g, x, y) ==> Adjacent(g, y, x) && EdgeProps(g, y, x) == EdgeProps(g, x, y)
    requires forall x, y :: Adjacent(g, x, y) ==> EdgeProps(g, x, y).Valid()
    requires d.Valid()
    requires Adjacent(r, u, v) && EdgeProps(r, u, v) == d
    requires Adjacent(r, v, u) && EdgeProps(r, v, u) == d
    requires forall x, y :: !SamePair(x, y, u, v) ==> (Adjacent(r, x, y) <==> Adjacent(g, x, y))
    requires forall x, y :: !SamePair(x, y, u, v) && Adjacent(g, x, y) ==> EdgeProps(r, x, y) == EdgeProps(g, x, y)
    ensures forall x, y :: Adjacent(r, x, y) ==> Adjacent(r, y, x) && EdgeProps(r, y, x) == EdgeProps(r, x, y)
    ensures forall x, y :: Adjacent(r, x, y) ==> EdgeProps(r, x, y).Valid()
  {
    forall x, y | Adjacent(r, x, y)
      ensures Adjacent(r, y, x) && EdgeProps(r, y, x) == EdgeProps(r, x, y)
      ensures EdgeProps(r, x, y).Valid()
    {
      if !SamePair(x, y, u, v) {
        assert Adjacent(g, x, y) && Adjacent(g, y, x) && !SamePair(y, x, u, v);
      }
    }
  }

  /** What `Link` does to each ordered pair. */
  lemma LinkAdjacency(g: Graph, u: NodeId, v: NodeId, d: Props)
    requires Valid(g) && u in g.node.m && v in g.node.m && d.Valid()
    ensures var a1 := g.adj[u := Put(g.adj[u], v, d)];
            var r := Graph(g.node, a1[v := Put(a1[v], u, d)]);
            && r.adj.Keys == g.adj.Keys
            && (forall x :: x in r.adj ==> r.adj[x].Valid())
            && Adjacent(r, u, v) && EdgeProps(r, u, v) == d
            && Adjacent(r, v, u) && EdgeProps(r, v, u) == d
            && (forall x, y :: !SamePair(x, y, u, v) ==> (Adjacent(r, x, y) <==> Adjacent(g, x, y)))
            && (forall x, y :: !SamePair(x, y, u, v) && Adjacent(g, x, y) ==> EdgeProps(r, x, y) == EdgeProps(g, x, y))
  {
    var a1 := g.adj[u := Put(g.adj[u], v, d)];
    var r := Graph(g.node, a1[v := Put(a1[v], u, d)]);
    forall x, y | !SamePair(x, y, u, v)
      ensures Adjacent(r, x, y) <==> Adjacent(g, x, y)
      ensures Adjacent(g, x, y) ==> EdgeProps(r, x, y) == EdgeProps(g, x, y)
    {
      if x == v {
        assert y != u;
      } else if x == u {
        assert y != v;
      }
    }
  }

  /**
   * `add_edge(u, v, properties)`: both endpoints exist afterwards, the pair
   * is linked in both directions with one attribute dictionary, the new
   * properties are merged into the edge's existing ones, and no other edge
   * changes.
   */
  function AddEdge(g: Graph, u: NodeId, v: NodeId, properties: Option<Props>): (r: Graph)
    requires Valid(g)
    requires properties.Some? ==> properties.value.Valid()
    ensures Valid(r)
    ensures Adjacent(r, u, v) && Adjacent(r, v, u)
    ensures EdgeProps(r, u, v).m == CurrentEdgeProps(g, u, v).m + PropsOrEmpty(properties).m
    ensures forall x, y :: !SamePair(x, y, u, v) ==> (Adjacent(r, x, y) <==> Adjacent(g, x, y))
    ensures forall x, y :: !SamePair(x, y, u, v) && Adjacent(g, x, y) ==> EdgeProps(r, x, y) == EdgeProps(g, x, y)
    ensures u in r.node.m && v in r.node.m
    ensures u in g.node.m && v in g.node.m ==> r.node == g.node
  {
    var g2 := Endpoints(g, u, v);
    EndpointsKeepEdges(g, u, v);
    var d := Merge(CurrentEdgeProps(g2, u, v), PropsOrEmpty(properties));
    LinkOver(g, g2, u, v, d);
    Link(g2, u, v, d)
  }

  /**
   * The storage's `add_edge(from_node, to_node, properties)`, which calls
   * `G.add_edge(from_node, to_node, **(properties or {}))`: `TypeError` when a
   * property is named `self`, `u_of_edge` or `v_of_edge`, and `AddEdge`
   * otherwise.
   */
  function StoreAddEdge(g: Graph, u: NodeId, v: NodeId, properties: Option<Props>): (r: Result<Graph, StorageError>)
    requires Valid(g)
    requires properties.Some? ==> properties.value.Valid()
    ensures r.Failure? <==>
              properties.Some? && ("self" in properties.value.m || "u_of_edge" in properties.value.m || "v_of_edge" in properties.value.m)
    ensures r.Failure? ==> r.error == DuplicateArgument
    ensures r.Success? ==> Valid(r.value) && Adjacent(r.value, u, v) && Adjacent(r.value, v, u)
    ensures r.Success? ==> EdgeProps(r.value, u, v).m == CurrentEdgeProps(g, u, v).m + PropsOrEmpty(properties).m
    ensures r.Success? ==> r.value == AddEdge(g, u, v, properties)
  {
    if Clashes(properties, AddEdgeParams) then Failure(DuplicateArgument) else Success(AddEdge(g, u, v, properties))
  }

  /** `Link` on a graph with the edges of `g` links `{u, v}` with `d` and keeps every other pair of `g`. */
  lemma LinkOver(g: Graph, g2: Graph, u: NodeId, v: NodeId, d: Props)
    requires Valid(g2) && u in g2.node.m && v in g2.node.m && d.Valid()
    requires SameEdges(g2, g)
    ensures var r := Link(g2, u, v, d);
            && Adjacent(r, u, v) && Adjacent(r, v, u) && EdgeProps(r, u, v) == d
            && (forall x, y :: !SamePair(x, y, u, v) ==> (Adjacent(r, x, y) <==> Adjacent(g, x, y)))
            && (forall x, y :: !SamePair(x, y, u, v) && Adjacent(g, x, y) ==> EdgeProps(r, x, y) == EdgeProps(g, x, y))
  {
    LinkAdjacency(g2, u, v, d);
  }

  /** After `add_edge(u, v)` exactly the pair `{u, v}` and the pairs linked before are linked. */
  lemma AddEdgeAdjacent(g: Graph, u: NodeId, v: NodeId, properties: Option<Props>)
    requires Valid(g)
    requires properties.Some? ==> properties.value.Valid()
    ensures var r := AddEdge(g, u, v, properties);
            forall x, y :: Adjacent(r, x, y) <==> SamePair(x, y, u, v) || Adjacent(g, x, y)
  {
    LinkedPairs(g, AddEdge(g, u, v, properties), u, v);
  }

  /** A graph that links `{u, v}` and agrees with `g` on every other pair links exactly those of `g` and `{u, v}`. */
  lemma LinkedPairs(g: Graph, r: Graph, u: NodeId, v: NodeId)
    requires Adjacent(r, u, v) && Adjacent(r, v, u)
    requires forall x, y :: !SamePair(x, y, u, v) ==> (Adjacent(r, x, y) <==> Adjacent(g, x, y))
    ensures forall x, y :: Adjacent(r, x, y) <==> SamePair(x, y, u, v) || Adjacent(g, x, y)
  {
  }

  /** `add_edge` creates a missing endpoint as `add_node` would with no properties: `u` first, then `v`. */
  lemma AddEdgeNodes(g: Graph, u: NodeId, v: NodeId, properties: Option<Props>)
    requires Valid(g)
    requires properties.Some? ==> properties.value.Valid()
    ensures AddEdge(g, u, v, properties).node == AddNode(AddNode(g, u, None), v, None).node
  {
    var g1 := EnsureNode(g, u);
    var g2 := Endpoints(g, u, v);
    var d := Merge(CurrentEdgeProps(g2, u, v), PropsOrEmpty(properties));
    assert AddEdge(g, u, v, properties) == Link(g2, u, v, d);
    EnsureIsAddNode(g, u);
    EnsureIsAddNode(g1, v);
  }

  /** The attributes `add_edge` leaves on the edge: the old ones updated with the new ones. */
  lemma AddEdgeExactProps(g: Graph, u: NodeId, v: NodeId, properties: Option<Props>)
    requires Valid(g)
    requires properties.Some? ==> properties.value.Valid()
    ensures EdgeProps(AddEdge(g, u, v, properties), u, v) == Merge(CurrentEdgeProps(g, u, v), PropsOrEmpty(properties))
  {
    var g2 := Endpoints(g, u, v);
    EndpointsKeepEdges(g, u, v);
    var d := Merge(CurrentEdgeProps(g2, u, v), PropsOrEmpty(properties));
    assert AddEdge(g, u, v, properties) == Link(g2, u, v, d);
    LinkAdjacency(g2, u, v, d);
  }

  /** `add_edge` appends each endpoint to the other's neighbour list only when the pair was not yet linked. */
  lemma AddEdgeNeighbors(g: Graph, u: NodeId, v: NodeId, properties: Option<Props>)
    requires Valid(g)
    requires properties.Some? ==> properties.value.Valid()
    ensures var r := AddEdge(g, u, v, properties);
            && (Adjacent(g, u, v) ==> NbrsOf(r, u) == NbrsOf(g, u) && NbrsOf(r, v) == NbrsOf(g, v))
            && (!Adjacent(g, u, v) ==> NbrsOf(r, u) == NbrsOf(g, u) + [v])
            && (!Adjacent(g, u, v) && u != v ==> NbrsOf(r, v) == NbrsOf(g, v) + [u])
            && (forall x :: x != u && x != v ==> NbrsOf(r, x) == NbrsOf(g, x))
  {
    var g2 := Endpoints(g, u, v);
    EndpointsKeepEdges(g, u, v);
    var d := Merge(CurrentEdgeProps(g2, u, v), PropsOrEmpty(properties));
    assert AddEdge(g, u, v, properties) == Link(g2, u, v, d);
    LinkNeighbors(g2, u, v, d);
  }

  /** What `Link` does to the neighbour lists. */
  lemma LinkNeighbors(g: Graph, u: NodeId, v: NodeId, d: Props)
    requires Valid(g) && u in g.node.m && v in g.node.m && d.Valid()
    ensures NbrsOf(Link(g, u, v, d), u) == if Adjacent(g, u, v) then NbrsOf(g, u) else NbrsOf(g, u) + [v]
    ensures u != v ==> NbrsOf(Link(g, u, v, d), v) == if Adjacent(g, u, v) then NbrsOf(g, v) else NbrsOf(g, v) + [u]
    ensures forall x :: x != u && x != v ==> NbrsOf(Link(g, u, v, d), x) == NbrsOf(g, x)
  {
    var a1 := g.adj[u := Put(g.adj[u], v, d)];
    var a2 := a1[v := Put(a1[v], u, d)];
    assert Link(g, u, v, d).adj == a2;
    if u == v {
      assert u in a1[v].m;
      assert a2[u].keys == a1[u].keys;
    } else {
      assert a2[u] == a1[u];
      assert a1[v] == g.adj[v];
      assert u in g.adj[v].m <==> Adjacent(g, u, v);
    }
  }

  /**
   * Linking the same unordered pair again, in either argument order, adds no
   * second edge: the neighbour lists stay as they were (so each neighbour is
   * listed once) and the new properties are merged into the one edge.
   */
  lemma RepeatedAddEdge(g: Graph, a: NodeId, b: NodeId, p: Option<Props>, q: Option<Props>)
    requires Valid(g)
    requires p.Some? ==> p.value.Valid()
    requires q.Some? ==> q.value.Valid()
    ensures var g1 := AddEdge(g, a, b, p);
            var h := AddEdge(g1, b, a, q);
            && NbrsOf(h, a) == NbrsOf(g1, a) && NbrsOf(h, b) == NbrsOf(g1, b)
            && Distinct(NbrsOf(h, a)) && Distinct(NbrsOf(h, b))
            && EdgeProps(h, a, b).m == EdgeProps(g1, a, b).m + PropsOrEmpty(q).m
  {
    var g1 := AddEdge(g, a, b, p);
    AddEdgeNeighbors(g1, b, a, q);
  }

  /** After `add_edge(a, b)`, `b` is a neighbour of `a` and `a` a neighbour of `b`, each listed once. */
  lemma AddEdgeSymmetric(g: Graph, a: NodeId, b: NodeId, p: Option<Props>)
    requires Valid(g)
    requires p.Some? ==> p.value.Valid()
    ensures var r := AddEdge(g, a, b, p);
            && a in r.node.m && b in r.node.m
            && b in NbrsOf(r, a) && a in NbrsOf(r, b)
            && Distinct(NbrsOf(r, a)) && Distinct(NbrsOf(r, b))
  {
  }

  /** `get_node(id)`: the node's attributes, or `KeyError` for an unknown id. */
  function GetNode(g: Graph, id: NodeId): (r: Result<Props, StorageError>)
    requires Valid(g)
    ensures r.Success? <==> id in g.node.keys
    ensures r.Success? ==> r.value == g.node.m[id] && r.value.Valid()
    ensures r.Failure? ==> r.error == NodeNotFound(id)
  {
    if id !in g.node.m then Failure(NodeNotFound(id)) else Success(g.node.m[id])
  }

  /**
   * `{'id': n, **G.nodes[n]}`: the id first, then the node's attributes;
   * an attribute named `id` replaces the id's value but keeps its place.
   */
  function NeighborRecord(g: Graph, n: NodeId): (r: Props)
    requires Valid(g) && n in g.node.m
    ensures r.Valid()
    ensures r.m == map["id" := Str(n)] + g.node.m[n].m
    ensures r.keys == ["id"] + Without(g.node.m[n].keys, "id")
  {
    var head: Props := Dict(["id"], map["id" := Str(n)]);
    var attrs := g.node.m[n];
    assert head.Valid();
    FreshOfSingleton(attrs.keys, head.m, "id");
    Merge(head, attrs)
  }

  /**
   * `get_neighbors(id)`: one record per neighbour, in neighbour order, built
   * from the neighbour's node attributes only (edge attributes are not
   * included); `KeyError` for an unknown id, `[]` for a node with no edges.
   */
  function GetNeighbors(g: Graph, id: NodeId): (r: Result<seq<Props>, StorageError>)
    requires Valid(g)
    ensures r.Failure? <==> id !in g.node.keys
    ensures r.Failure? ==> r.error == NodeNotFound(id)
    ensures r.Success? ==>
      && |r.value| == |NbrsOf(g, id)|
      && (forall i :: 0 <= i < |r.value| ==>
            NbrsOf(g, id)[i] in g.node.m
            && r.value[i].m == map["id" := Str(NbrsOf(g, id)[i])] + g.node.m[NbrsOf(g, id)[i]].m)
  {
    if id !in g.node.m then Failure(NodeNotFound(id))
    else
      var ns := g.adj[id].keys;
      NeighborsAreNodes(g, id);
      Success(seq(|ns|, i requires 0 <= i < |ns| => NeighborRecord(g, ns[i])))
  }

  lemma NeighborsAreNodes(g: Graph, id: NodeId)
    requires Valid(g) && id in g.node.m
    ensures forall i :: 0 <= i < |g.adj[id].keys| ==> g.adj[id].keys[i] in g.node.m
  {
    forall i | 0 <= i < |g.adj[id].keys|
      ensures g.adj[id].keys[i] in g.node.m
    {
      assert Adjacent(g, id, g.adj[id].keys[i]);
    }
  }

  /** Each neighbour is listed once, and the list holds exactly the linked nodes. */
  lemma NeighborsListedOnce(g: Graph, id: NodeId)
    requires Valid(g)
    ensures Distinct(NbrsOf(g, id))
    ensures forall n :: n in NbrsOf(g, id) <==> Adjacent(g, id, n)
  {
  }

  /** A node that exists but has no edges has an empty neighbour list. */
  lemma IsolatedNodeNeighbors(g: Graph, id: NodeId, p: Option<Props>)
    requires Valid(g) && id !in g.node.m
    requires p.Some? ==> p.value.Valid()
    ensures GetNeighbors(AddNode(g, id, p), id) == Success([])
  {
  }

  /**
   * `query(text)`: `node:X` gives `[get_node(X)]`, `neighbors:X` gives
   * `get_neighbors(X)`, with `X` everything after the prefix; any other text
   * raises `ValueError`.
   */
  function Query(g: Graph, text: string): (r: Result<seq<Props>, StorageError>)
    requires Valid(g)
    ensures StartsWith(text, NodePrefix) ==>
      var x := text[|NodePrefix|..];
      && (r.Success? <==> GetNode(g, x).Success?)
      && (r.Success? ==> r.value == [GetNode(g, x).value])
      && (r.Failure? ==> r.error == NodeNotFound(x))
    ensures !StartsWith(text, NodePrefix) && StartsWith(text, NeighborsPrefix) ==>
      r == GetNeighbors(g, text[|NeighborsPrefix|..])
    ensures !StartsWith(text, NodePrefix) && !StartsWith(text, NeighborsPrefix) ==>
      r == Failure(UnsupportedQuery)
  {
    match Parse(text)
    case ByNode(id) =>
      (match GetNode(g, id)
       case Success(p) => Success([p])
       case Failure(e) => Failure(e))
    case ByNeighbors(id) => GetNeighbors(g, id)
    case Unsupported => Failure(UnsupportedQuery)
  }
}
