/**
 * The relational persistence of `NetworkXGraphStorage`: the `nodes` and
 * `edges` tables, modelled as sequences of rows whose `properties` column
 * holds the property dictionary its JSON text denotes.  `connect` loads the
 * rows into the in-memory graph; `disconnect` deletes every row and writes
 * the current graph back.
 */
module GraphTables {
  import opened Wrappers
  import opened Dicts
  import opened Json
  import opened StorageErrors
  import opened GraphStore

  /** A row of `nodes(id TEXT PRIMARY KEY, properties TEXT)`. */
  datatype NodeRow = NodeRow(id: NodeId, properties: Props)

  /** A row of `edges(from_node TEXT, to_node TEXT, properties TEXT, PRIMARY KEY (from_node, to_node))`. */
  datatype EdgeRow = EdgeRow(fromNode: NodeId, toNode: NodeId, properties: Props)

  /** The database: the two tables in row order. A database that did not exist yet holds two empty tables. */
  datatype Tables = Tables(nodes: seq<NodeRow>, edges: seq<EdgeRow>)

  ghost predicate ValidTables(t: Tables)
  {
    && (forall i :: 0 <= i < |t.nodes| ==> t.nodes[i].properties.Valid())
    && (forall i :: 0 <= i < |t.edges| ==> t.edges[i].properties.Valid())
  }

  /** The ids of a sequence of node rows, in row order. */
  function Ids(rows: seq<NodeRow>): (r: seq<NodeId>)
    ensures |r| == |rows| && forall i :: 0 <= i < |rows| ==> r[i] == rows[i].id
  {
    seq(|rows|, i requires 0 <= i < |rows| => rows[i].id)
  }

  /** True iff the edge row stands for the unordered pair `{u, v}`. */
  predicate Joins(r: EdgeRow, u: NodeId, v: NodeId)
  {
    SamePair(r.fromNode, r.toNode, u, v)
  }

  /** No two edge rows stand for the same unordered pair. */
  ghost predicate UniquePairs(rows: seq<EdgeRow>)
  {
    forall i, j :: 0 <= i < j < |rows| ==> !Joins(rows[j], rows[i].fromNode, rows[i].toNode)
  }

  /** Some edge row stands for `{u, v}`. */
  predicate InRows(rows: seq<EdgeRow>, u: NodeId, v: NodeId)
    decreases |rows|
  {
    rows != [] && (InRows(rows[..|rows| - 1], u, v) || Joins(rows[|rows| - 1], u, v))
  }

  lemma {:induction false} InRowsAt(rows: seq<EdgeRow>, i: nat, u: NodeId, v: NodeId)
    requires i < |rows| && Joins(rows[i], u, v)
    ensures InRows(rows, u, v)
    decreases |rows|
  {
    if i < |rows| - 1 {
      var front := rows[..|rows| - 1];
      assert front[i] == rows[i];
      InRowsAt(front, i, u, v);
    }
  }

  lemma {:induction false} InRowsWitness(rows: seq<EdgeRow>, u: NodeId, v: NodeId) returns (i: nat)
    requires InRows(rows, u, v)
    ensures i < |rows| && Joins(rows[i], u, v)
    decreases |rows|
  {
    var front := rows[..|rows| - 1];
    if Joins(rows[|rows| - 1], u, v) {
      i := |rows| - 1;
    } else {
      i := InRowsWitness(front, u, v);
      assert front[i] == rows[i];
    }
  }

  /** Every edge row is an edge of `g` carrying that edge's attributes. */
  ghost predicate RowsFromGraph(g: Graph, rows: seq<EdgeRow>)
  {
    forall i :: 0 <= i < |rows| ==>
      Adjacent(g, rows[i].fromNode, rows[i].toNode)
      && rows[i].properties == EdgeProps(g, rows[i].fromNode, rows[i].toNode)
  }

  // ---------------------------------------------------------------- saving

  /** `G.nodes(data=True)`: one row per node, in node order. */
  function NodeRows(g: Graph): (rows: seq<NodeRow>)
    requires Valid(g)
    ensures Ids(rows) == g.node.keys
    ensures forall i :: 0 <= i < |rows| ==> rows[i].properties == g.node.m[rows[i].id]
  {
    var ks := g.node.keys;
    var rows := seq(|ks|, i requires 0 <= i < |ks| => NodeRow(ks[i], g.node.m[ks[i]]));
    assert Ids(rows) == ks;
    rows
  }

  /**
   * The rows `n` contributes: one per neighbour not already `seen`, in
   * neighbour order; each is an edge from `n` with that edge's attributes.
   */
  function RowsOf(g: Graph, n: NodeId, nbrs: seq<NodeId>, seen: set<NodeId>): (rows: seq<EdgeRow>)
    requires n in g.adj
    requires forall x :: x in nbrs ==> x in g.adj[n].m
    ensures RowsFromGraph(g, rows)
    ensures forall i :: 0 <= i < |rows| ==> rows[i].fromNode == n && rows[i].toNode !in seen && rows[i].toNode in nbrs
  {
    if nbrs == [] then []
    else
      var head := if nbrs[0] in seen then [] else [EdgeRow(n, nbrs[0], g.adj[n].m[nbrs[0]])];
      var rest := RowsOf(g, n, nbrs[1..], seen);
      FromGraphConcat(g, head, rest);
      var rows := head + rest;
      assert forall i :: 0 <= i < |rows| ==> rows[i].fromNode == n && rows[i].toNode !in seen && rows[i].toNode in nbrs by {
        forall i | 0 <= i < |rows|
          ensures rows[i].fromNode == n && rows[i].toNode !in seen && rows[i].toNode in nbrs
        {
          if i >= |head| {
            assert rows[i] == rest[i - |head|];
          }
        }
      }
      rows
  }

  /**
   * `G.edges(data=True)` from node list `ns` on: each node reports its
   * neighbours in adjacency order, skipping those reported before it, so that
   * an undirected edge comes out once; every row is an edge from a node of
   * `ns` to a node not `seen`, with the edge's attributes.
   */
  function EdgeRowsFrom(g: Graph, ns: seq<NodeId>, seen: set<NodeId>): (rows: seq<EdgeRow>)
    requires AdjacencyWellFormed(g)
    requires forall x :: x in ns ==> x in g.adj
    ensures RowsFromGraph(g, rows)
    ensures forall i :: 0 <= i < |rows| ==> rows[i].fromNode in ns && rows[i].toNode !in seen
  {
    if ns == [] then []
    else
      var n := ns[0];
      var head := RowsOf(g, n, g.adj[n].keys, seen);
      var rest := EdgeRowsFrom(g, ns[1..], seen + {n});
      FromGraphConcat(g, head, rest);
      var rows := head + rest;
      assert forall i :: 0 <= i < |rows| ==> rows[i].fromNode in ns && rows[i].toNode !in seen by {
        forall i | 0 <= i < |rows|
          ensures rows[i].fromNode in ns && rows[i].toNode !in seen
        {
          if i >= |head| {
            assert rows[i] == rest[i - |head|];
          }
        }
      }
      rows
  }

  /**
   * `G.edges(data=True)` over the whole graph: each undirected edge exactly
   * once, with its attributes.
   */
  function EdgeRows(g: Graph): (rows: seq<EdgeRow>)
    requires Valid(g)
    ensures RowsFromGraph(g, rows)
    ensures UniquePairs(rows)
    ensures forall u, v :: Adjacent(g, u, v) ==> InRows(rows, u, v)
  {
    EdgeRowsFromUnique(g, g.node.keys, {});
    EdgeRowsFromCovers(g, g.node.keys, {});
    EdgeRowsFrom(g, g.node.keys, {})
  }

  /** `_save_graph_to_db`: both tables are emptied, then refilled from the graph. */
  function Save(g: Graph): (t: Tables)
    requires Valid(g)
    ensures ValidTables(t)
    ensures Distinct(Ids(t.nodes))
    ensures UniquePairs(t.edges)
  {
    Tables(NodeRows(g), EdgeRows(g))
  }

  lemma UniqueConcat(a: seq<EdgeRow>, b: seq<EdgeRow>)
    requires UniquePairs(a) && UniquePairs(b)
    requires forall i, j :: 0 <= i < |a| && 0 <= j < |b| ==> !Joins(b[j], a[i].fromNode, a[i].toNode)
    ensures UniquePairs(a + b)
  {
    var c := a + b;
    forall i, j | 0 <= i < j < |c|
      ensures !Joins(c[j], c[i].fromNode, c[i].toNode)
    {
      if j < |a| {
        assert c[i] == a[i] && c[j] == a[j];
      } else if i < |a| {
        assert c[i] == a[i] && c[j] == b[j - |a|];
      } else {
        assert c[i] == b[i - |a|] && c[j] == b[j - |a|];
      }
    }
  }

  lemma FromGraphConcat(g: Graph, a: seq<EdgeRow>, b: seq<EdgeRow>)
    requires RowsFromGraph(g, a) && RowsFromGraph(g, b)
    ensures RowsFromGraph(g, a + b)
  {
    var c := a + b;
    forall i | 0 <= i < |c|
      ensures Adjacent(g, c[i].fromNode, c[i].toNode)
      ensures c[i].properties == EdgeProps(g, c[i].fromNode, c[i].toNode)
    {
      if i < |a| {
        assert c[i] == a[i];
      } else {
        assert c[i] == b[i - |a|];
      }
    }
  }

  lemma InRowsConcat(a: seq<EdgeRow>, b: seq<EdgeRow>, u: NodeId, v: NodeId)
    requires InRows(a, u, v) || InRows(b, u, v)
    ensures InRows(a + b, u, v)
  {
    if InRows(a, u, v) {
      var j := InRowsWitness(a, u, v);
      assert (a + b)[j] == a[j];
      InRowsAt(a + b, j, u, v);
    } else {
      var j := InRowsWitness(b, u, v);
      assert (a + b)[|a| + j] == b[j];
      InRowsAt(a + b, |a| + j, u, v);
    }
  }

  lemma {:induction false} RowsOfUnique(g: Graph, n: NodeId, nbrs: seq<NodeId>, seen: set<NodeId>)
    requires n in g.adj && Distinct(nbrs)
    requires forall x :: x in nbrs ==> x in g.adj[n].m
    ensures UniquePairs(RowsOf(g, n, nbrs, seen))
  {
    if nbrs != [] {
      var rest := RowsOf(g, n, nbrs[1..], seen);
      RowsOfUnique(g, n, nbrs[1..], seen);
      var head := if nbrs[0] in seen then [] else [EdgeRow(n, nbrs[0], g.adj[n].m[nbrs[0]])];
      assert nbrs[0] !in nbrs[1..];
      UniqueConcat(head, rest);
    }
  }

  lemma {:induction false} RowsOfCovers(g: Graph, n: NodeId, nbrs: seq<NodeId>, seen: set<NodeId>)
    requires Valid(g) && n in g.adj
    requires forall x :: x in nbrs ==> x in g.adj[n].m
    ensures forall v :: v in nbrs && v !in seen ==> InRows(RowsOf(g, n, nbrs, seen), n, v)
  {
    if nbrs != [] {
      var rest := RowsOf(g, n, nbrs[1..], seen);
      RowsOfCovers(g, n, nbrs[1..], seen);
      var head := if nbrs[0] in seen then [] else [EdgeRow(n, nbrs[0], g.adj[n].m[nbrs[0]])];
      forall v | v in nbrs && v !in seen
        ensures InRows(head + rest, n, v)
      {
        if v == nbrs[0] {
          InRowsAt(head, 0, n, v);
        }
        InRowsConcat(head, rest, n, v);
      }
    }
  }

  lemma {:induction false} EdgeRowsFromUnique(g: Graph, ns: seq<NodeId>, seen: set<NodeId>)
    requires AdjacencyWellFormed(g) && Distinct(ns)
    requires forall x :: x in ns ==> x in g.adj
    ensures UniquePairs(EdgeRowsFrom(g, ns, seen))
  {
    if ns != [] {
      var n := ns[0];
      var head := RowsOf(g, n, g.adj[n].keys, seen);
      var rest := EdgeRowsFrom(g, ns[1..], seen + {n});
      RowsOfUnique(g, n, g.adj[n].keys, seen);
      EdgeRowsFromUnique(g, ns[1..], seen + {n});
      assert n !in ns[1..];
      UniqueConcat(head, rest);
    }
  }

  lemma {:induction false} EdgeRowsFromCovers(g: Graph, ns: seq<NodeId>, seen: set<NodeId>)
    requires Valid(g)
    requires forall x :: x in ns ==> x in g.adj
    ensures forall u, v :: u in ns && Adjacent(g, u, v) && u !in seen && v !in seen ==> InRows(EdgeRowsFrom(g, ns, seen), u, v)
  {
    if ns != [] {
      var n := ns[0];
      var head := RowsOf(g, n, g.adj[n].keys, seen);
      var rest := EdgeRowsFrom(g, ns[1..], seen + {n});
      RowsOfCovers(g, n, g.adj[n].keys, seen);
      EdgeRowsFromCovers(g, ns[1..], seen + {n});
      forall u, v | u in ns && Adjacent(g, u, v) && u !in seen && v !in seen
        ensures InRows(head + rest, u, v)
      {
        if u == n {
          assert InRows(head, u, v);
        } else if v == n {
          assert Adjacent(g, v, u);
          assert InRows(head, v, u);
          var j := InRowsWitness(head, v, u);
          InRowsAt(head, j, u, v);
        } else {
          assert InRows(rest, u, v);
        }
        InRowsConcat(head, rest, u, v);
      }
    }
  }

  // --------------------------------------------------------------- loading

  /** `G.add_node(id, **properties)` for each node row, in row order. */
  function LoadNodes(g: Graph, rows: seq<NodeRow>): (r: Graph)
    requires Valid(g)
    requires forall i :: 0 <= i < |rows| ==> rows[i].properties.Valid()
    ensures Valid(r)
    decreases |rows|
  {
    if rows == [] then g
    else
      var last := rows[|rows| - 1];
      AddNode(LoadNodes(g, rows[..|rows| - 1]), last.id, Some(last.properties))
  }

  /** `G.add_edge(from_node, to_node, **properties)` for each edge row, in row order. */
  function LoadEdges(g: Graph, rows: seq<EdgeRow>): (r: Graph)
    requires Valid(g)
    requires forall i :: 0 <= i < |rows| ==> rows[i].properties.Valid()
    ensures Valid(r)
    decreases |rows|
  {
    if rows == [] then g
    else
      var last := rows[|rows| - 1];
      AddEdge(LoadEdges(g, rows[..|rows| - 1]), last.fromNode, last.toNode, Some(last.properties))
  }

  /**
   * `_load_graph_from_db`: every node row, then every edge row, is added to
   * the graph the instance already holds; nothing is cleared first.
   */
  function Load(g: Graph, t: Tables): (r: Graph)
    requires Valid(g) && ValidTables(t)
    ensures Valid(r)
  {
    LoadEdges(LoadNodes(g, t.nodes), t.edges)
  }

  ghost predicate NoEdges(g: Graph)
  {
    forall u, v :: !Adjacent(g, u, v)
  }

  /** `g` holds exactly the nodes of `rows`, in row order, with their properties, and no edge. */
  ghost predicate NodesLoaded(g: Graph, rows: seq<NodeRow>)
  {
    && g.node.keys == Ids(rows)
    && (forall i :: 0 <= i < |rows| ==> rows[i].id in g.node.m && g.node.m[rows[i].id] == rows[i].properties)
    && NoEdges(g)
  }

  lemma LoadNodeStep(h: Graph, front: seq<NodeRow>, last: NodeRow)
    requires Valid(h) && NodesLoaded(h, front)
    requires last.properties.Valid() && last.id !in Ids(front)
    ensures NodesLoaded(AddNode(h, last.id, Some(last.properties)), front + [last])
  {
    var r := AddNode(h, last.id, Some(last.properties));
    assert last.id !in h.node.m;
    AddNodeOrder(h, last.id, Some(last.properties));
    AddNodeExactProps(h, last.id, Some(last.properties));
    MergeIntoEmpty(last.properties);
    assert NoEdges(r) by {
      AddNodeKeepsEdges(h, last.id, Some(last.properties));
    }
    NodesLoadedSnoc(h, r, front, last);
  }

  /**
   * A graph that appends the node of `last`, with its properties, to a graph
   * holding `front`, keeps the other nodes and has no edge holds `front + [last]`.
   */
  lemma NodesLoadedSnoc(h: Graph, r: Graph, front: seq<NodeRow>, last: NodeRow)
    requires NodesLoaded(h, front)
    requires r.node.keys == h.node.keys + [last.id]
    requires last.id in r.node.m && r.node.m[last.id] == last.properties
    requires forall n :: n in h.node.m && n != last.id ==> n in r.node.m && r.node.m[n] == h.node.m[n]
    requires last.id !in Ids(front) && NoEdges(r)
    ensures NodesLoaded(r, front + [last])
  {
    var rows := front + [last];
    assert Ids(rows) == Ids(front) + [last.id];
    forall i | 0 <= i < |rows|
      ensures rows[i].id in r.node.m && r.node.m[rows[i].id] == rows[i].properties
    {
      if i < |front| {
        assert rows[i] == front[i];
        assert Ids(front)[i] == front[i].id;
      }
    }
  }

  /** Loading node rows with distinct ids into an empty graph lists them in row order with their properties. */
  lemma {:induction false} LoadNodesFresh(rows: seq<NodeRow>)
    requires forall i :: 0 <= i < |rows| ==> rows[i].properties.Valid()
    requires Distinct(Ids(rows))
    ensures NodesLoaded(LoadNodes(EmptyGraph(), rows), rows)
    decreases |rows|
  {
    if rows != [] {
      var front := rows[..|rows| - 1];
      var last := rows[|rows| - 1];
      assert rows == front + [last];
      assert Distinct(Ids(front)) by {
        assert forall i :: 0 <= i < |front| ==> Ids(front)[i] == Ids(rows)[i];
      }
      assert last.id !in Ids(front) by {
        assert Ids(rows)[|rows| - 1] == last.id;
        assert forall i :: 0 <= i < |front| ==> Ids(front)[i] == Ids(rows)[i];
      }
      LoadNodesFresh(front);
      LoadNodeStep(LoadNodes(EmptyGraph(), front), front, last);
    }
  }

  lemma InRowsSnoc(front: seq<EdgeRow>, last: EdgeRow, x: NodeId, y: NodeId)
    ensures InRows(front + [last], x, y) <==> InRows(front, x, y) || Joins(last, x, y)
  {
    assert (front + [last])[..|front|] == front;
  }

  lemma InRowsSnocAll(front: seq<EdgeRow>, last: EdgeRow)
    ensures forall x, y :: InRows(front + [last], x, y) <==> InRows(front, x, y) || SamePair(x, y, last.fromNode, last.toNode)
  {
    forall x, y
      ensures InRows(front + [last], x, y) <==> InRows(front, x, y) || SamePair(x, y, last.fromNode, last.toNode)
    {
      InRowsSnoc(front, last, x, y);
    }
  }

  /** `g` has exactly the edges of `rows`, each with its row's properties. */
  ghost predicate HoldsRows(g: Graph, rows: seq<EdgeRow>)
  {
    && (forall u, v :: Adjacent(g, u, v) <==> InRows(rows, u, v))
    && (forall i :: 0 <= i < |rows| ==>
          Adjacent(g, rows[i].fromNode, rows[i].toNode)
          && EdgeProps(g, rows[i].fromNode, rows[i].toNode) == rows[i].properties)
  }

  /** `g` has the nodes of `h` and exactly the edges of `rows`, each with its row's properties. */
  ghost predicate EdgesLoaded(g: Graph, h: Graph, rows: seq<EdgeRow>)
  {
    g.node == h.node && HoldsRows(g, rows)
  }

  /** The row just loaded, for a pair not linked before, carries exactly its own properties. */
  lemma LoadEdgeLastRow(g: Graph, last: EdgeRow)
    requires Valid(g) && last.properties.Valid()
    requires !Adjacent(g, last.fromNode, last.toNode)
    ensures var r := AddEdge(g, last.fromNode, last.toNode, Some(last.properties));
            Adjacent(r, last.fromNode, last.toNode) && EdgeProps(r, last.fromNode, last.toNode) == last.properties
  {
    AddEdgeExactProps(g, last.fromNode, last.toNode, Some(last.properties));
    MergeIntoEmpty(last.properties);
  }

  /**
   * If `r` holds the row `last` and keeps every edge of `g` on another pair,
   * then `r` holds every row `g` held that is not on the pair of `last`.
   */
  lemma RowsStillHeld(g: Graph, r: Graph, front: seq<EdgeRow>, last: EdgeRow)
    requires forall i :: 0 <= i < |front| ==>
               Adjacent(g, front[i].fromNode, front[i].toNode)
               && EdgeProps(g, front[i].fromNode, front[i].toNode) == front[i].properties
               && !SamePair(front[i].fromNode, front[i].toNode, last.fromNode, last.toNode)
    requires Adjacent(r, last.fromNode, last.toNode) && EdgeProps(r, last.fromNode, last.toNode) == last.properties
    requires forall x, y :: !SamePair(x, y, last.fromNode, last.toNode) && Adjacent(g, x, y) ==>
               Adjacent(r, x, y) && EdgeProps(r, x, y) == EdgeProps(g, x, y)
    ensures var rows := front + [last];
            forall i :: 0 <= i < |rows| ==>
              Adjacent(r, rows[i].fromNode, rows[i].toNode)
              && EdgeProps(r, rows[i].fromNode, rows[i].toNode) == rows[i].properties
  {
    var rows := front + [last];
    forall i | 0 <= i < |rows|
      ensures Adjacent(r, rows[i].fromNode, rows[i].toNode)
      ensures EdgeProps(r, rows[i].fromNode, rows[i].toNode) == rows[i].properties
    {
      if i < |front| {
        assert rows[i] == front[i];
      }
    }
  }

  /** A row that joins no pair of earlier rows stands for a pair those rows do not contain. */
  lemma NotInRows(front: seq<EdgeRow>, last: EdgeRow)
    requires forall i :: 0 <= i < |front| ==> !Joins(last, front[i].fromNode, front[i].toNode)
    ensures !InRows(front, last.fromNode, last.toNode)
  {
    if InRows(front, last.fromNode, last.toNode) {
      var i := InRowsWitness(front, last.fromNode, last.toNode);
      assert Joins(last, front[i].fromNode, front[i].toNode);
    }
  }

  lemma LoadEdgeStep(g: Graph, h: Graph, front: seq<EdgeRow>, last: EdgeRow)
    requires Valid(g) && EdgesLoaded(g, h, front)
    requires last.fromNode in h.node.m && last.toNode in h.node.m && last.properties.Valid()
    requires forall i :: 0 <= i < |front| ==> !Joins(last, front[i].fromNode, front[i].toNode)
    ensures EdgesLoaded(AddEdge(g, last.fromNode, last.toNode, Some(last.properties)), h, front + [last])
  {
    var a, b := last.fromNode, last.toNode;
    var r := AddEdge(g, a, b, Some(last.properties));
    assert !Adjacent(g, a, b) by {
      NotInRows(front, last);
    }
    LoadEdgeLastRow(g, last);
    AddEdgeAdjacent(g, a, b, Some(last.properties));
    HoldsRowsStep(g, r, front, last);
  }

  /**
   * If `r` links exactly the pairs of `g` and the pair of `last`, gives
   * `last`'s pair, when it is new, the properties of `last`, and keeps every
   * other edge, then `r` holds the rows `g` holds followed by `last`.
   */
  lemma HoldsRowsStep(g: Graph, r: Graph, front: seq<EdgeRow>, last: EdgeRow)
    requires HoldsRows(g, front)
    requires forall i :: 0 <= i < |front| ==> !Joins(last, front[i].fromNode, front[i].toNode)
    requires forall x, y :: Adjacent(r, x, y) <==> SamePair(x, y, last.fromNode, last.toNode) || Adjacent(g, x, y)
    requires !Adjacent(g, last.fromNode, last.toNode) ==>
               Adjacent(r, last.fromNode, last.toNode) && EdgeProps(r, last.fromNode, last.toNode) == last.properties
    requires forall x, y :: !SamePair(x, y, last.fromNode, last.toNode) && Adjacent(g, x, y) ==>
               Adjacent(r, x, y) && EdgeProps(r, x, y) == EdgeProps(g, x, y)
    ensures HoldsRows(r, front + [last])
  {
    NotInRows(front, last);
    InRowsSnocAll(front, last);
    RowsStillHeld(g, r, front, last);
  }

  /**
   * Loading edge rows whose pairs are all distinct into a graph with no edges
   * links exactly the rows' pairs, each with its row's properties, and adds
   * no node when the rows' endpoints are nodes already.
   */
  lemma {:induction false} LoadEdgesFresh(h: Graph, rows: seq<EdgeRow>)
    requires Valid(h) && NoEdges(h)
    requires forall i :: 0 <= i < |rows| ==> rows[i].properties.Valid()
    requires forall i :: 0 <= i < |rows| ==> rows[i].fromNode in h.node.m && rows[i].toNode in h.node.m
    requires UniquePairs(rows)
    ensures EdgesLoaded(LoadEdges(h, rows), h, rows)
    decreases |rows|
  {
    if rows == [] {
      assert forall u, v :: !InRows(rows, u, v);
    } else {
      var front := rows[..|rows| - 1];
      var last := rows[|rows| - 1];
      assert rows == front + [last];
      assert UniquePairs(front) by {
        forall i, j | 0 <= i < j < |front|
          ensures !Joins(front[j], front[i].fromNode, front[i].toNode)
        {
          assert front[i] == rows[i] && front[j] == rows[j];
        }
      }
      forall i | 0 <= i < |front|
        ensures !Joins(last, front[i].fromNode, front[i].toNode)
      {
        assert front[i] == rows[i];
      }
      LoadEdgesFresh(h, front);
      LoadEdgeStep(LoadEdges(h, front), h, front, last);
    }
  }

  /** The node table written by `Save` loads into a fresh graph as the node dictionary and no edge. */
  lemma LoadSavedNodes(g: Graph)
    requires Valid(g)
    ensures var h := LoadNodes(EmptyGraph(), NodeRows(g));
            h.node == g.node && NoEdges(h)
  {
    var rows := NodeRows(g);
    var h := LoadNodes(EmptyGraph(), rows);
    assert NodesLoaded(h, rows) by {
      LoadNodesFresh(rows);
    }
    forall i | 0 <= i < |g.node.keys|
      ensures h.node.m[g.node.keys[i]] == g.node.m[g.node.keys[i]]
    {
      assert Ids(rows)[i] == rows[i].id;
    }
    SameEntries(h.node, g.node);
  }

  /** A pair some row stands for is an edge of both graphs, with the row's attributes in each. */
  lemma PairFromRows(h: Graph, g: Graph, rows: seq<EdgeRow>, u: NodeId, v: NodeId)
    requires Valid(h) && Valid(g)
    requires HoldsRows(h, rows) && RowsFromGraph(g, rows)
    requires InRows(rows, u, v)
    ensures Adjacent(h, u, v) && Adjacent(g, u, v)
    ensures EdgeProps(h, u, v) == EdgeProps(g, u, v)
  {
    var i := InRowsWitness(rows, u, v);
    var e := rows[i];
    assert Adjacent(h, e.fromNode, e.toNode) && Adjacent(g, e.fromNode, e.toNode);
    assert EdgeProps(h, e.fromNode, e.toNode) == EdgeProps(g, e.fromNode, e.toNode);
  }

  /** A graph holding exactly rows that list exactly the edges of `g`, with their attributes, has the edges of `g`. */
  lemma SameEdgesFromRows(h: Graph, g: Graph, rows: seq<EdgeRow>)
    requires Valid(h) && Valid(g)
    requires HoldsRows(h, rows) && RowsFromGraph(g, rows)
    requires forall u, v :: Adjacent(g, u, v) ==> InRows(rows, u, v)
    ensures SameEdges(h, g)
  {
    forall u, v | Adjacent(g, u, v) || Adjacent(h, u, v)
      ensures Adjacent(h, u, v) && Adjacent(g, u, v)
      ensures EdgeProps(h, u, v) == EdgeProps(g, u, v)
    {
      PairFromRows(h, g, rows, u, v);
    }
  }

  /** The edge table written by `Save`, loaded into a graph with the nodes of `g` and no edge, gives the edges of `g`. */
  lemma LoadSavedEdges(g: Graph, h0: Graph)
    requires Valid(g) && Valid(h0) && h0.node == g.node && NoEdges(h0)
    ensures var h := LoadEdges(h0, Save(g).edges);
            h.node == g.node && SameEdges(h, g)
  {
    var rows := Save(g).edges;
    var h := LoadEdges(h0, rows);
    assert rows == EdgeRows(g);
    assert HoldsRows(h, rows) && h.node == g.node by {
      forall i | 0 <= i < |rows|
        ensures rows[i].fromNode in h0.node.m && rows[i].toNode in h0.node.m
      {
        assert Adjacent(g, rows[i].fromNode, rows[i].toNode);
      }
      LoadEdgesFresh(h0, rows);
    }
    SameEdgesFromRows(h, g, rows);
  }

  /**
   * Saving a graph and loading the tables into a fresh graph restores the
   * node dictionary exactly (ids, order and properties) and the same edges
   * with the same properties.
   */
  lemma LoadSaveRoundTrip(g: Graph)
    requires Valid(g)
    ensures var h := Load(EmptyGraph(), Save(g));
            && h.node == g.node
            && SameEdges(h, g)
            && (forall id :: GetNode(h, id) == GetNode(g, id))
  {
    var t := Save(g);
    var h0 := LoadNodes(EmptyGraph(), t.nodes);
    assert h0.node == g.node && NoEdges(h0) by {
      assert t.nodes == NodeRows(g);
      LoadSavedNodes(g);
    }
    LoadSavedEdges(g, h0);
  }

  // ------------------------------------------------- neighbour order is lost

  /** A graph without edges lists no neighbours. */
  lemma NoEdgesNoNeighbors(g: Graph)
    requires Valid(g) && NoEdges(g)
    ensures forall n :: NbrsOf(g, n) == []
  {
    forall n | n in g.adj
      ensures g.adj[n].keys == []
    {
      if g.adj[n].keys != [] {
        assert Adjacent(g, n, g.adj[n].keys[0]);
      }
    }
  }

  /** Three nodes `a`, `b`, `c` in that order, each with `{}`, no edge. */
  function ThreeNodes(a: NodeId, b: NodeId, c: NodeId): (g: Graph)
    ensures Valid(g)
  {
    LoadNodes(EmptyGraph(), [NodeRow(a, Empty()), NodeRow(b, Empty()), NodeRow(c, Empty())])
  }

  /** Nodes `a`, `b`, `c`, then `add_edge(b, c)` and `add_edge(a, b)`. */
  function OrderExample(a: NodeId, b: NodeId, c: NodeId): (g: Graph)
    ensures Valid(g)
  {
    AddEdge(AddEdge(ThreeNodes(a, b, c), b, c, None), a, b, None)
  }

  lemma ThreeNodesFacts(a: NodeId, b: NodeId, c: NodeId)
    requires a != b && b != c && a != c
    ensures ThreeNodes(a, b, c).node.keys == [a, b, c]
    ensures forall n :: NbrsOf(ThreeNodes(a, b, c), n) == []
  {
    var rows := [NodeRow(a, Empty()), NodeRow(b, Empty()), NodeRow(c, Empty())];
    assert Ids(rows) == [a, b, c];
    LoadNodesFresh(rows);
    NoEdgesNoNeighbors(ThreeNodes(a, b, c));
  }

  /** `add_edge` on a pair of existing, distinct, unlinked nodes appends each to the other's neighbours. */
  lemma AddFreshEdge(g: Graph, u: NodeId, v: NodeId, properties: Option<Props>)
    requires Valid(g) && u in g.node.m && v in g.node.m && u != v && !Adjacent(g, u, v)
    requires properties.Some? ==> properties.value.Valid()
    ensures var r := AddEdge(g, u, v, properties);
            && r.node == g.node
            && NbrsOf(r, u) == NbrsOf(g, u) + [v]
            && NbrsOf(r, v) == NbrsOf(g, v) + [u]
            && (forall x :: x != u && x != v ==> NbrsOf(r, x) == NbrsOf(g, x))
            && Adjacent(r, u, v) && EdgeProps(r, u, v) == PropsOrEmpty(properties)
            && (forall x, y :: !SamePair(x, y, u, v) && Adjacent(g, x, y) ==> Adjacent(r, x, y) && EdgeProps(r, x, y) == EdgeProps(g, x, y))
  {
    AddEdgeNeighbors(g, u, v, properties);
    AddEdgeExactProps(g, u, v, properties);
    MergeIntoEmpty(PropsOrEmpty(properties));
  }

  lemma FirstExampleEdge(g3: Graph, a: NodeId, b: NodeId, c: NodeId)
    requires a != b && b != c && a != c
    requires Valid(g3) && g3.node.keys == [a, b, c] && forall n :: NbrsOf(g3, n) == []
    ensures var g4 := AddEdge(g3, b, c, None);
            && g4.node == g3.node
            && NbrsOf(g4, a) == [] && NbrsOf(g4, b) == [c] && NbrsOf(g4, c) == [b]
            && Adjacent(g4, b, c) && EdgeProps(g4, b, c) == Empty()
  {
    NeighborsListedOnce(g3, b);
    AddFreshEdge(g3, b, c, None);
  }

  lemma SecondExampleEdge(g4: Graph, a: NodeId, b: NodeId, c: NodeId)
    requires a != b && b != c && a != c
    requires Valid(g4) && g4.node.keys == [a, b, c]
    requires NbrsOf(g4, a) == [] && NbrsOf(g4, b) == [c] && NbrsOf(g4, c) == [b]
    requires Adjacent(g4, b, c) && EdgeProps(g4, b, c) == Empty()
    ensures var g := AddEdge(g4, a, b, None);
            && g.node.keys == [a, b, c]
            && NbrsOf(g, a) == [b] && NbrsOf(g, b) == [c, a] && NbrsOf(g, c) == [b]
            && Adjacent(g, a, b) && EdgeProps(g, a, b) == Empty()
            && Adjacent(g, b, c) && EdgeProps(g, b, c) == Empty()
  {
    assert !Adjacent(g4, a, b) by {
      NeighborsListedOnce(g4, a);
    }
    AddFreshEdge(g4, a, b, None);
    SecondEdgeFacts(g4, AddEdge(g4, a, b, None), a, b, c);
  }

  /** What linking the isolated `a` to `b` leaves, given only the facts `AddFreshEdge` states. */
  lemma SecondEdgeFacts(g4: Graph, g: Graph, a: NodeId, b: NodeId, c: NodeId)
    requires a != b && b != c && a != c
    requires g4.node.keys == [a, b, c] && g.node == g4.node
    requires NbrsOf(g4, a) == [] && NbrsOf(g4, b) == [c] && NbrsOf(g4, c) == [b]
    requires Adjacent(g4, b, c) && EdgeProps(g4, b, c) == Empty()
    requires NbrsOf(g, a) == NbrsOf(g4, a) + [b] && NbrsOf(g, b) == NbrsOf(g4, b) + [a]
    requires NbrsOf(g, c) == NbrsOf(g4, c)
    requires Adjacent(g, a, b) && EdgeProps(g, a, b) == Empty()
    requires Adjacent(g, b, c) && EdgeProps(g, b, c) == EdgeProps(g4, b, c)
    ensures g.node.keys == [a, b, c]
    ensures NbrsOf(g, a) == [b] && NbrsOf(g, b) == [c, a] && NbrsOf(g, c) == [b]
    ensures Adjacent(g, a, b) && EdgeProps(g, a, b) == Empty()
    ensures Adjacent(g, b, c) && EdgeProps(g, b, c) == Empty()
  {
  }

  /** In the example `b` lists `c` before `a`, and both edges carry `{}`. */
  lemma OrderExampleFacts(a: NodeId, b: NodeId, c: NodeId)
    requires a != b && b != c && a != c
    ensures var g := OrderExample(a, b, c);
            && g.node.keys == [a, b, c]
            && NbrsOf(g, a) == [b] && NbrsOf(g, b) == [c, a] && NbrsOf(g, c) == [b]
            && Adjacent(g, a, b) && EdgeProps(g, a, b) == Empty()
            && Adjacent(g, b, c) && EdgeProps(g, b, c) == Empty()
  {
    var g3 := ThreeNodes(a, b, c);
    ThreeNodesFacts(a, b, c);
    FirstExampleEdge(g3, a, b, c);
    SecondExampleEdge(AddEdge(g3, b, c, None), a, b, c);
  }

  lemma ExampleEdgeRows(g: Graph, a: NodeId, b: NodeId, c: NodeId)
    requires a != b && b != c && a != c
    requires Valid(g) && g.node.keys == [a, b, c]
    requires NbrsOf(g, a) == [b] && NbrsOf(g, b) == [c, a] && NbrsOf(g, c) == [b]
    requires Adjacent(g, a, b) && EdgeProps(g, a, b) == Empty()
    requires Adjacent(g, b, c) && EdgeProps(g, b, c) == Empty()
    ensures EdgeRows(g) == [EdgeRow(a, b, Empty()), EdgeRow(b, c, Empty())]
  {
    ExampleRowsFrom(g, a, b, c);
  }

  /** The edge-view iteration over `a`, `b`, `c` with the example's adjacency. */
  lemma ExampleRowsFrom(g: Graph, a: NodeId, b: NodeId, c: NodeId)
    requires a != b && b != c && a != c
    requires AdjacencyWellFormed(g) && a in g.adj && b in g.adj && c in g.adj
    requires g.adj[a].keys == [b] && g.adj[b].keys == [c, a] && g.adj[c].keys == [b]
    requires Adjacent(g, a, b) && EdgeProps(g, a, b) == Empty()
    requires Adjacent(g, b, c) && EdgeProps(g, b, c) == Empty()
    ensures EdgeRowsFrom(g, [a, b, c], {}) == [EdgeRow(a, b, Empty()), EdgeRow(b, c, Empty())]
  {
    var e := Empty<string, Value>();
    assert RowsOf(g, a, [b], {}) == [EdgeRow(a, b, e)] by {
      SingleRow(g, a, b, {});
    }
    assert RowsOf(g, b, [c, a], {a}) == [EdgeRow(b, c, e)] by {
      SecondNodeRows(g, a, b, c);
    }
    assert RowsOf(g, c, [b], {a, b}) == [] by {
      SingleRow(g, c, b, {a, b});
    }
    LastNodesRows(g, a, b, c, [EdgeRow(b, c, e)]);
    EdgeRowsFromFirst(g, [a, b, c], {});
    assert [a, b, c][1..] == [b, c];
    assert {} + {a} == {a};
  }

  /** The rows `n` reports for a single neighbour `x`. */
  lemma SingleRow(g: Graph, n: NodeId, x: NodeId, seen: set<NodeId>)
    requires n in g.adj && x in g.adj[n].m
    ensures RowsOf(g, n, [x], seen) == if x in seen then [] else [EdgeRow(n, x, g.adj[n].m[x])]
  {
    assert [x][1..] == [];
  }

  lemma SecondNodeRows(g: Graph, a: NodeId, b: NodeId, c: NodeId)
    requires b in g.adj && g.adj[b].keys == [c, a] && g.adj[b].Valid()
    requires a != c && Adjacent(g, b, c) && EdgeProps(g, b, c) == Empty()
    ensures RowsOf(g, b, [c, a], {a}) == [EdgeRow(b, c, Empty())]
  {
    assert [c, a][1..] == [a];
    SingleRow(g, b, a, {a});
  }

  /** Once `a` has reported its rows, `b` reports `rowsB` and `c` nothing. */
  lemma LastNodesRows(g: Graph, a: NodeId, b: NodeId, c: NodeId, rowsB: seq<EdgeRow>)
    requires AdjacencyWellFormed(g) && a in g.adj && b in g.adj && c in g.adj
    requires RowsOf(g, b, g.adj[b].keys, {a}) == rowsB
    requires RowsOf(g, c, g.adj[c].keys, {a, b}) == []
    ensures EdgeRowsFrom(g, [b, c], {a}) == rowsB
  {
    assert EdgeRowsFrom(g, [c], {a, b}) == [] by {
      EdgeRowsFromFirst(g, [c], {a, b});
      assert [c][1..] == [];
    }
    EdgeRowsFromFirst(g, [b, c], {a});
    assert [b, c][1..] == [c];
    assert {a} + {b} == {a, b};
  }

  lemma EdgeRowsFromFirst(g: Graph, ns: seq<NodeId>, seen: set<NodeId>)
    requires AdjacencyWellFormed(g) && ns != []
    requires forall x :: x in ns ==> x in g.adj
    ensures EdgeRowsFrom(g, ns, seen) == RowsOf(g, ns[0], g.adj[ns[0]].keys, seen) + EdgeRowsFrom(g, ns[1..], seen + {ns[0]})
  {
  }

  /** The example saves as the edge rows `(a, b)` then `(b, c)`. */
  lemma OrderExampleRows(a: NodeId, b: NodeId, c: NodeId)
    requires a != b && b != c && a != c
    ensures Save(OrderExample(a, b, c)).edges == [EdgeRow(a, b, Empty()), EdgeRow(b, c, Empty())]
  {
    OrderExampleFacts(a, b, c);
    ExampleEdgeRows(OrderExample(a, b, c), a, b, c);
  }

  lemma LoadEdgesSnoc(h: Graph, front: seq<EdgeRow>, last: EdgeRow)
    requires Valid(h) && last.properties.Valid()
    requires forall i :: 0 <= i < |front| ==> front[i].properties.Valid()
    ensures LoadEdges(h, front + [last]) == AddEdge(LoadEdges(h, front), last.fromNode, last.toNode, Some(last.properties))
  {
    SnocPrefix(front, last);
  }

  lemma SnocPrefix<T>(front: seq<T>, last: T)
    ensures (front + [last])[..|front|] == front
  {
  }

  lemma LoadTwoEdges(h0: Graph, rows: seq<EdgeRow>)
    requires Valid(h0) && |rows| == 2
    requires forall i :: 0 <= i < |rows| ==> rows[i].properties.Valid()
    ensures LoadEdges(h0, rows)
            == AddEdge(AddEdge(h0, rows[0].fromNode, rows[0].toNode, Some(rows[0].properties)),
                       rows[1].fromNode, rows[1].toNode, Some(rows[1].properties))
  {
    PairAsSnoc(rows[0], rows[1]);
    assert rows == [rows[0], rows[1]];
    LoadOneEdge(h0, rows[0]);
    LoadEdgesSnoc(h0, [rows[0]], rows[1]);
  }

  lemma LoadOneEdge(h0: Graph, r1: EdgeRow)
    requires Valid(h0) && r1.properties.Valid()
    ensures LoadEdges(h0, [r1]) == AddEdge(h0, r1.fromNode, r1.toNode, Some(r1.properties))
  {
    SnocPrefix([], r1);
  }

  lemma PairAsSnoc<T>(x: T, y: T)
    ensures [x] + [y] == [x, y]
  {
  }

  lemma ReloadExampleEdges(h0: Graph, a: NodeId, b: NodeId, c: NodeId)
    requires a != b && b != c && a != c
    requires Valid(h0) && a in h0.node.m && b in h0.node.m && c in h0.node.m
    requires forall n :: NbrsOf(h0, n) == []
    ensures NbrsOf(AddEdge(AddEdge(h0, a, b, Some(Empty())), b, c, Some(Empty())), b) == [a, c]
  {
    var e := Empty<string, Value>();
    var h1 := AddEdge(h0, a, b, Some(e));
    assert NbrsOf(h1, b) == [a] && h1.node == h0.node by {
      NeighborsListedOnce(h0, a);
      AddFreshEdge(h0, a, b, Some(e));
    }
    AppendNeighbor(h1, a, b, c);
  }

  /** Linking `b` to an existing `c` it is not linked to puts `c` after `a`, its only neighbour so far. */
  lemma AppendNeighbor(h1: Graph, a: NodeId, b: NodeId, c: NodeId)
    requires Valid(h1) && b in h1.node.m && c in h1.node.m && b != c && a != c
    requires NbrsOf(h1, b) == [a]
    ensures NbrsOf(AddEdge(h1, b, c, Some(Empty())), b) == [a, c]
  {
    NeighborsListedOnce(h1, b);
    AddFreshEdge(h1, b, c, Some(Empty()));
  }

  /**
   * The round trip does not keep neighbour order: in the example `b` lists
   * `c` before `a`, but once saved and loaded into a fresh graph it lists
   * `a` before `c`, so `get_neighbors(b)` changes order.
   */
  lemma NeighborOrderNotRestored(a: NodeId, b: NodeId, c: NodeId)
    requires a != b && b != c && a != c
    ensures var g := OrderExample(a, b, c);
            var h := Load(EmptyGraph(), Save(g));
            && NbrsOf(g, b) == [c, a]
            && NbrsOf(h, b) == [a, c]
  {
    var g := OrderExample(a, b, c);
    var t := Save(g);
    OrderExampleFacts(a, b, c);
    OrderExampleRows(a, b, c);
    var h0 := LoadNodes(EmptyGraph(), t.nodes);
    assert h0.node == g.node && NoEdges(h0) by {
      assert t.nodes == NodeRows(g);
      LoadSavedNodes(g);
    }
    NoEdgesNoNeighbors(h0);
    LoadTwoEdges(h0, t.edges);
    ReloadExampleEdges(h0, a, b, c);
  }

  // ------------------------------------------------------------- lifecycle

  /**
   * The `conn` attribute: `None` until `connect`, an open sqlite connection
   * after it, and a closed one after `disconnect` (still truthy, but every
   * cursor on it fails).
   */
  datatype Conn = NoConn | Open | Closed

  /** A `NetworkXGraphStorage` instance: its graph `G` and its connection. */
  datatype GraphStorage = GraphStorage(graph: Graph, conn: Conn)

  /** What `disconnect` leaves: the instance, the database, and the exception raised, if any. */
  datatype Flush = Flush(after: GraphStorage, db: Tables, raised: Option<StorageError>)

  ghost predicate ValidStorage(s: GraphStorage)
  {
    Valid(s.graph)
  }

  /** `__init__`: an empty graph and no connection. */
  function NewStorage(): (s: GraphStorage)
    ensures ValidStorage(s) && s.conn == NoConn
    ensures s.graph.node.keys == [] && NoEdges(s.graph)
  {
    GraphStorage(EmptyGraph(), NoConn)
  }

  /**
   * `connect`: opens the database (a fresh connection whatever the previous
   * state) and loads its rows into the graph already held, which is not
   * cleared first.
   */
  function Connect(s: GraphStorage, db: Tables): (r: GraphStorage)
    requires ValidStorage(s) && ValidTables(db)
    ensures ValidStorage(r) && r.conn == Open
    ensures db == Tables([], []) ==> r.graph == s.graph
    ensures forall n :: n in s.graph.node.m ==> n in r.graph.node.m
  {
    LoadKeepsNodes(s.graph, db);
    GraphStorage(Load(s.graph, db), Open)
  }

  lemma {:induction false} LoadNodesKeeps(g: Graph, rows: seq<NodeRow>)
    requires Valid(g)
    requires forall i :: 0 <= i < |rows| ==> rows[i].properties.Valid()
    ensures forall n :: n in g.node.m ==> n in LoadNodes(g, rows).node.m
    decreases |rows|
  {
    if rows != [] {
      LoadNodesKeeps(g, rows[..|rows| - 1]);
    }
  }

  lemma {:induction false} LoadEdgesKeeps(g: Graph, rows: seq<EdgeRow>)
    requires Valid(g)
    requires forall i :: 0 <= i < |rows| ==> rows[i].properties.Valid()
    ensures forall n :: n in g.node.m ==> n in LoadEdges(g, rows).node.m
    decreases |rows|
  {
    if rows != [] {
      var last := rows[|rows| - 1];
      var h := LoadEdges(g, rows[..|rows| - 1]);
      LoadEdgesKeeps(g, rows[..|rows| - 1]);
      AddEdgeNodes(h, last.fromNode, last.toNode, Some(last.properties));
    }
  }

  /** Loading only ever adds: every node held before is still held. */
  lemma LoadKeepsNodes(g: Graph, t: Tables)
    requires Valid(g) && ValidTables(t)
    ensures forall n :: n in g.node.m ==> n in Load(g, t).node.m
  {
    LoadNodesKeeps(g, t.nodes);
    LoadEdgesKeeps(LoadNodes(g, t.nodes), t.edges);
  }

  /**
   * `disconnect`: saves through the connection, then closes it.  Without a
   * prior `connect` the connection is `None` and the save raises
   * `AttributeError`; after a `disconnect` the connection is closed and the
   * save raises sqlite's `ProgrammingError`.  In both cases nothing is
   * written.  Otherwise the tables are replaced by the rows of the graph.
   */
  function Disconnect(s: GraphStorage, db: Tables): (r: Flush)
    requires ValidStorage(s)
    ensures r.raised.None? <==> s.conn == Open
    ensures s.conn == NoConn ==> r == Flush(s, db, Some(NotConnected))
    ensures s.conn == Closed ==> r == Flush(s, db, Some(ClosedDatabase))
    ensures s.conn == Open ==>
              && r.after == GraphStorage(s.graph, Closed)
              && ValidTables(r.db)
              && Ids(r.db.nodes) == s.graph.node.keys
              && (forall i :: 0 <= i < |r.db.nodes| ==> r.db.nodes[i].properties == s.graph.node.m[r.db.nodes[i].id])
              && UniquePairs(r.db.edges)
              && RowsFromGraph(s.graph, r.db.edges)
              && (forall u, v :: Adjacent(s.graph, u, v) ==> InRows(r.db.edges, u, v))
  {
    match s.conn
    case NoConn => Flush(s, db, Some(NotConnected))
    case Closed => Flush(s, db, Some(ClosedDatabase))
    case Open =>
      Flush(GraphStorage(s.graph, Closed), Save(s.graph), None)
  }

  /**
   * A graph written by `disconnect` comes back, with the same nodes in the
   * same order with the same properties and the same edges with the same
   * properties, when a new instance connects to that database.
   */
  lemma DisconnectConnectRoundTrip(s: GraphStorage, db: Tables)
    requires ValidStorage(s) && s.conn == Open
    ensures var f := Disconnect(s, db);
            var s2 := Connect(NewStorage(), f.db);
            && f.raised == None
            && s2.graph.node == s.graph.node
            && SameEdges(s2.graph, s.graph)
  {
    LoadSaveRoundTrip(s.graph);
  }
}
