# mem0 storages in Dafny

A Dafny model of the three storage backends of mem0:

- **`DefaultKeyValueStorage`** (`mem0/storages/key_value/default.py`): a Python
  dictionary from string keys to structured values. `connect` loads it whole from a
  snapshot file. `disconnect` writes it back whole.
- **`NetworkXGraphStorage`** (`mem0/storages/graph/networkx.py`): an undirected
  property graph held in a networkx `Graph`. It is persisted to two SQLite tables,
  `nodes(id, properties)` and `edges(from_node, to_node, properties)`.
- **`QdrantVectorStorage`** (`mem0/storages/vector/qdrant.py`): the adapter's pure
  part. This covers the connection parameters `connect` selects, what each operation
  sends to the client, how replies become results, and the translation of a filter
  mapping into Qdrant conditions.

Every store is an immutable state record, and every operation is a pure function on
it. An operation that raises returns a `Result` (or a `Step`/`Flush` record) whose
error is a `StorageErrors.StorageError`.

Modules:

| file | module | contents |
|---|---|---|
| wrappers.dfy | `Wrappers` | `Option`, `Result` |
| dicts.dfy | `Dicts` | insertion-ordered dictionaries with Python `dict` semantics (`d[k] = v`, `del`, `update`, iteration order) |
| values.dfy | `Json`, `StorageErrors` | the tagged value of a JSON document or payload, property mappings, the raised exceptions |
| key_value.dfy | `KeyValueStore` | the key-value store and its snapshot file |
| graph_query.dfy | `GraphQuery` | the `node:` / `neighbors:` query syntax |
| graph.dfy | `GraphStore` | the networkx graph: `add_node`, `add_edge`, `get_node`, `get_neighbors`, `query` |
| graph_tables.dfy | `GraphTables` | saving to and loading from the two tables, the round trip, and the `connect`/`disconnect` lifecycle |
| qdrant.dfy | `QdrantAdapter` | the Qdrant adapter |

Persistence media are abstract:

- The key-value snapshot file is `Option<Dict<string, Value>>`. `None` means the file
  is missing. `Some(d)` means the file holds the object `d`.
- The graph database is two sequences of rows. A `properties` column holds the
  property mapping its JSON text denotes.
- The Qdrant client is an opaque record of the keyword arguments it was built with.
  Each operation yields the `Call` it makes on the client. The client's replies
  (retrieved points, search hits) are parameters.

The graph is modelled as networkx stores it:

- `node` is an ordered dictionary from node id to attributes.
- `adj[u]` is an ordered dictionary from each neighbour of `u` to the edge's
  attributes.
- networkx shares one attribute dictionary between `adj[u][v]` and `adj[v][u]`. Here
  that sharing becomes an invariant: the two entries are always equal (`GraphStore.Valid`).

Behaviours of the code worth noting:

- `get_neighbors` returns each neighbour's node attributes, under the neighbour's `id`.
- `add_edge` merges new properties into an existing edge's attributes with `dict.update`.
- The key-value and graph operations keep working after `disconnect`. Only the graph's
  second `disconnect` fails, because its connection is closed.
- `connect` on the graph loads the rows into the graph it already holds.
- Saving and reloading the graph restores nodes, edges and all properties. The order of
  a node's neighbours comes back in edge-row order, so `get_neighbors` can list them in
  another order (`GraphTables.NeighborOrderNotRestored`).
- `add_node` and `add_edge` pass the properties as keyword arguments. A property named
  like one of networkx's parameters (`node_for_adding`, `u_of_edge`, `v_of_edge`) raises
  `TypeError` (`GraphStore.StoreAddNode`, `GraphStore.StoreAddEdge`).
- `search` builds its filter before it uses the client. A filter value that `MatchValue`
  refuses (a float, `null`, a list, a mapping without both bounds) fails the call even
  without a client (`QdrantAdapter.SearchCall`).

## Model

| member | source | states |
|---|---|---|
| Dicts.Put | mem0/storages/key_value/default.py:22-23 | `d[k] = v` maps `k` to `v` and keeps every other entry; a present key keeps its place in iteration order, a new key goes last |
| Dicts.Remove | mem0/storages/key_value/default.py:30-33 | `del d[k]` drops exactly `k` from the mapping, and the order is the old order with `k` spliced out at its position |
| Dicts.PutAll | mem0/storages/key_value/default.py:42-44 | storing the entries of `src` one by one in `ks` order overrides exactly those keys, and appends the keys new to `d` in `ks` order |
| Dicts.FreshMembers | mem0/storages/key_value/default.py:42-44 | the keys `update` appends are exactly the keys of `other` absent from `d`, each once |
| Dicts.Merge | mem0/storages/key_value/default.py:42-44 | `d.update(other)` yields the old mapping overridden by `other`; the keys are the old keys in their old order, then the keys new to `d` in `other`'s order |
| Dicts.MergeKeepsOrder | mem0/storages/key_value/default.py:42-44 | `update` keeps the old keys first, in their old order |
| Dicts.MergeExistingKeys | mem0/storages/graph/networkx.py:23-24 | updating with keys that are all present moves no key |
| Dicts.MergeNewKeys | mem0/storages/graph/networkx.py:23-24 | updating with keys that are all absent appends them in the other mapping's order |
| Dicts.MergeIntoEmpty | mem0/storages/graph/networkx.py:60-63 | `{}` updated with `p` is `p`, order included, so a node created from a row gets exactly the row's mapping |
| Dicts.FreshOfSingleton | mem0/storages/graph/networkx.py:37 | overlaying a mapping on `{'id': n}` appends all its keys except `id`, in order |
| Dicts.MergeIdempotent | mem0/storages/graph/networkx.py:23-27 | updating a mapping twice with the same mapping equals updating it once, order included |
| Dicts.Items | mem0/storages/key_value/default.py:46-48 | `items()` lists each key in iteration order with its value |
| Dicts.Values | mem0/storages/key_value/default.py:50-52 | `values()` lists the value of each key in iteration order |
| Dicts.LengthIsDomainSize | mem0/storages/key_value/default.py:58-60 | the number of keys listed is the number of distinct keys stored |
| Dicts.SameEntries | mem0/storages/graph/networkx.py:76-77 | two dictionaries with the same keys in the same order and the same value per key are equal |
| Json.PropsOrEmpty | mem0/storages/graph/networkx.py:23-27 | `properties or {}`: absent properties stand for the empty mapping, present ones are used as they are |
| KeyValueStore.New | mem0/storages/key_value/default.py:7-9 | a new instance holds no key |
| KeyValueStore.Keys | mem0/storages/key_value/default.py:35-36 | `keys()` lists exactly the stored keys, each once |
| KeyValueStore.Get | mem0/storages/key_value/default.py:25-28 | `get(k)` succeeds iff `k` is listed by `keys()` and returns its value; an absent key raises `KeyError` |
| KeyValueStore.Set | mem0/storages/key_value/default.py:22-23 | after `set(k, v)`, `get(k)` is `v`, every other key's `get` is unchanged, and `k` is appended to `keys()` only if it was new |
| KeyValueStore.Delete | mem0/storages/key_value/default.py:30-33 | an absent key raises `KeyError` and leaves the store as it was; otherwise `get(k)` fails afterwards, every other `get` is unchanged, and `keys()` loses exactly `k` at its position |
| KeyValueStore.Clear | mem0/storages/key_value/default.py:38-40 | after `clear()`, no key is listed, `len` is 0 and every `get` raises |
| KeyValueStore.Update | mem0/storages/key_value/default.py:42-44 | after `update(other)`, `get(k)` is `other[k]` for a key of `other` and the old `get(k)` otherwise; `keys()` is the old keys in order, then the keys of `other` that were absent, in `other`'s order |
| KeyValueStore.Items | mem0/storages/key_value/default.py:46-48 | `items()` pairs each key of `keys()`, in order, with what `get` returns for it |
| KeyValueStore.Values | mem0/storages/key_value/default.py:50-52 | `values()` holds what `get` returns for each key of `keys()`, in order |
| KeyValueStore.GetOrDefault | mem0/storages/key_value/default.py:54-56 | `get_or_default(k, d)` is what `get(k)` returns when `k` is present and `d` otherwise |
| KeyValueStore.Len | mem0/storages/key_value/default.py:58-60 | `len` equals the length of `keys()` and the number of distinct stored keys |
| KeyValueStore.Contains | mem0/storages/key_value/default.py:62-64 | `k in store` iff `k` is listed by `keys()`, iff `get(k)` succeeds |
| KeyValueStore.Iterate | mem0/storages/key_value/default.py:66-68 | iterating the store yields the keys in the order `keys()` lists them |
| KeyValueStore.Connect | mem0/storages/key_value/default.py:11-16 | a missing file gives an empty store; an existing file gives exactly its mapping |
| KeyValueStore.Disconnect | mem0/storages/key_value/default.py:18-20 | the written file makes a fresh instance's `connect` restore exactly this store |
| KeyValueStore.ReconnectRestores | mem0/storages/key_value/default.py:11-20 | `connect` on what `disconnect` wrote yields exactly the store that was written, whatever the connecting instance held before |
| KeyValueStore.DistinctSetsListed | mem0/storages/key_value/default.py:22-23 | after `set` on N distinct keys in a new store, `keys()` is exactly those keys in the order set, and `len` is N |
| KeyValueStore.SetThenDeleteFresh | mem0/storages/key_value/default.py:30-33 | `set` then `delete` of a key that was absent restores the original store, order included |
| GraphQuery.IndexOf | mem0/storages/graph/networkx.py:42 | finds the first occurrence of a character, or reports that it does not occur |
| GraphQuery.SplitOnce | mem0/storages/graph/networkx.py:42 | `split(":", 1)` gives the whole text when there is no colon, else the text before the first colon and everything after it |
| GraphQuery.AfterPrefixColon | mem0/storages/graph/networkx.py:41-45 | for text starting with `node:` or `neighbors:`, the part after the first colon is the text after the prefix |
| GraphQuery.StartsWith | mem0/storages/graph/networkx.py:41-44 | `text.startswith(p)` holds iff `text` is `p` followed by some rest |
| GraphQuery.Parse | mem0/storages/graph/networkx.py:39-48 | a text is a node query iff it starts with `node:`, a neighbours query iff it starts with `neighbors:`, and the id is everything after the prefix |
| GraphQuery.ParseRender | mem0/storages/graph/networkx.py:39-48 | every node or neighbours query, whatever its id contains (colons included), reads back as itself |
| GraphQuery.RenderParse | mem0/storages/graph/networkx.py:39-48 | every text that parses as a supported query is exactly that query written out |
| GraphStore.EmptyGraph | mem0/storages/graph/networkx.py:9-10 | the new graph has no node |
| GraphStore.NbrsOf | mem0/storages/graph/networkx.py:37 | `list(G.neighbors(n))` for a node of the graph lists no neighbour twice; the model gives `[]` for an absent node, which `get_neighbors` never passes (networkx would raise `NetworkXError`) |
| GraphStore.AddNode | mem0/storages/graph/networkx.py:23-24 | `add_node(id, p)` creates `id` if absent, merges `p` into its attributes (new keys win, others stay, `None` as `{}`), and changes no other node and no adjacency |
| GraphStore.AddNodeOrder | mem0/storages/graph/networkx.py:23-24 | a new node goes last in node order; an existing node keeps its place |
| GraphStore.AddNodeKeepsEdges | mem0/storages/graph/networkx.py:23-24 | `add_node` changes no edge and no neighbour list |
| GraphStore.AddNodeExactProps | mem0/storages/graph/networkx.py:23-24 | the node's attributes become the old ones updated with `p`, order included |
| GraphStore.StoreAddNode | mem0/storages/graph/networkx.py:23-24 | `add_node` raises `TypeError` iff a property is named `self` or `node_for_adding`; otherwise it is `GraphStore.AddNode` and leaves the graph well-formed with the merged attributes |
| GraphStore.SetNode | mem0/storages/graph/networkx.py:23-24 | giving a node an attribute mapping keeps the graph well-formed, creates a new node without neighbours, and keeps every adjacency |
| GraphStore.EnsureNode | mem0/storages/graph/networkx.py:26-27 | `add_edge` creates a missing endpoint and leaves an existing one untouched |
| GraphStore.EnsureNodeKeepsEdges | mem0/storages/graph/networkx.py:26-27 | creating a missing endpoint links nothing and changes no neighbour list |
| GraphStore.Endpoints | mem0/storages/graph/networkx.py:26-27 | afterwards both endpoints exist, and nothing changes when both already did |
| GraphStore.EndpointsKeepEdges | mem0/storages/graph/networkx.py:26-27 | creating the endpoints keeps every edge, its attributes and every neighbour list |
| GraphStore.EnsureIsAddNode | mem0/storages/graph/networkx.py:23-27 | an endpoint created by `add_edge` is what `add_node` without properties creates |
| GraphStore.Link | mem0/storages/graph/networkx.py:26-27 | storing one attribute mapping under both directions of the pair keeps the graph well-formed and its nodes unchanged |
| GraphStore.LinkValid | mem0/storages/graph/networkx.py:26-27 | linking `{u, v}` in both directions keeps every edge recorded at both ends with one mapping |
| GraphStore.LinkAdjacency | mem0/storages/graph/networkx.py:26-27 | linking makes `{u, v}` adjacent both ways with the given mapping and changes no other pair |
| GraphStore.LinkNeighbors | mem0/storages/graph/networkx.py:26-27 | linking appends each endpoint to the other's neighbour list only if they were not yet linked; other lists do not change |
| GraphStore.AddEdge | mem0/storages/graph/networkx.py:26-27 | `add_edge(u, v, p)` links `u`–`v` both ways with the old edge attributes updated by `p`, creates missing endpoints, and changes no other pair |
| GraphStore.AddEdgeAdjacent | mem0/storages/graph/networkx.py:26-27 | afterwards exactly the pairs linked before and `{u, v}` are linked |
| GraphStore.AddEdgeNodes | mem0/storages/graph/networkx.py:26-27 | `add_edge` changes the nodes as `add_node(u)` then `add_node(v)` without properties would |
| GraphStore.AddEdgeExactProps | mem0/storages/graph/networkx.py:26-27 | the edge's attributes are the old ones (or `{}`) updated with `p`, order included |
| GraphStore.AddEdgeNeighbors | mem0/storages/graph/networkx.py:26-27 | a new edge appends `v` to `u`'s neighbours and `u` to `v`'s; an existing edge changes no neighbour list |
| GraphStore.RepeatedAddEdge | mem0/storages/graph/networkx.py:26-27 | repeating `add_edge` in either argument order creates no second edge; neighbour lists stay as they were, with no duplicates, and the properties are merged |
| GraphStore.AddEdgeSymmetric | mem0/storages/graph/networkx.py:26-27 | after `add_edge(a, b)` both nodes exist, `b` is among `a`'s neighbours and `a` among `b`'s, each listed once |
| GraphStore.StoreAddEdge | mem0/storages/graph/networkx.py:26-27 | `add_edge` raises `TypeError` iff a property is named `self`, `u_of_edge` or `v_of_edge`; otherwise it is `GraphStore.AddEdge`, linking both ways with the merged attributes |
| GraphStore.GetNode | mem0/storages/graph/networkx.py:29-32 | `get_node(id)` returns the node's attributes iff the node exists; otherwise it raises `KeyError` |
| GraphStore.NeighborRecord | mem0/storages/graph/networkx.py:37 | a neighbour's record is `{'id': n}` overlaid with `n`'s node attributes, so an attribute named `id` overrides the id; its keys are `id` then the node's other attribute keys in order |
| GraphStore.GetNeighbors | mem0/storages/graph/networkx.py:34-37 | an absent id raises `KeyError`; otherwise there is one record per neighbour, in neighbour order, built from node attributes only |
| GraphStore.NeighborsAreNodes | mem0/storages/graph/networkx.py:34-37 | every listed neighbour is a node of the graph |
| GraphStore.NeighborsListedOnce | mem0/storages/graph/networkx.py:34-37 | the neighbour list holds exactly the linked nodes, each once |
| GraphStore.IsolatedNodeNeighbors | mem0/storages/graph/networkx.py:23-24 | a node just added with no edges has an empty neighbour list, not an error |
| GraphStore.Query | mem0/storages/graph/networkx.py:39-48 | `node:X` gives `[get_node(X)]` or its `KeyError`; `neighbors:X` gives `get_neighbors(X)`; `X` is everything after the prefix; any other text raises `ValueError` |
| GraphTables.NodeRows | mem0/storages/graph/networkx.py:76-77 | one node row per node, in node order, carrying the node's attributes |
| GraphTables.Save | mem0/storages/graph/networkx.py:70-81 | the tables are rewritten from the graph alone: node ids are distinct, and no two edge rows stand for the same unordered pair |
| GraphTables.RowsOf | mem0/storages/graph/networkx.py:79 | the rows one node reports are edges of the graph from that node, with their attributes, to neighbours not reported before |
| GraphTables.EdgeRowsFrom | mem0/storages/graph/networkx.py:79 | every edge row is an edge of the graph, with its attributes, from a node still to report to a node not reported before |
| GraphTables.RowsOfUnique | mem0/storages/graph/networkx.py:79 | one node reports each of its edges at most once |
| GraphTables.RowsOfCovers | mem0/storages/graph/networkx.py:79 | one node reports every edge to a neighbour not reported before |
| GraphTables.EdgeRowsFromUnique | mem0/storages/graph/networkx.py:79 | no undirected edge is reported twice |
| GraphTables.EdgeRowsFromCovers | mem0/storages/graph/networkx.py:79 | every edge touching a node still to report is reported |
| GraphTables.EdgeRows | mem0/storages/graph/networkx.py:79-80 | the edge table holds each undirected edge exactly once, with its attributes, and nothing else |
| GraphTables.LoadNodes | mem0/storages/graph/networkx.py:61-63 | adding every node row in order keeps the graph well-formed |
| GraphTables.LoadEdges | mem0/storages/graph/networkx.py:66-68 | adding every edge row in order keeps the graph well-formed |
| GraphTables.Load | mem0/storages/graph/networkx.py:50-68 | node rows then edge rows are added to the graph already held, keeping it well-formed |
| GraphTables.LoadNodeStep | mem0/storages/graph/networkx.py:61-63 | adding a node row with a new id extends the loaded nodes by that row |
| GraphTables.LoadNodesFresh | mem0/storages/graph/networkx.py:61-63 | node rows with distinct ids load into an empty graph as exactly those nodes, in row order, with the rows' properties and no edge |
| GraphTables.LoadEdgeLastRow | mem0/storages/graph/networkx.py:66-68 | an edge row for an unlinked pair leaves the pair with exactly the row's properties |
| GraphTables.LoadEdgeStep | mem0/storages/graph/networkx.py:66-68 | adding an edge row on a new pair extends the loaded edges by that row |
| GraphTables.LoadEdgesFresh | mem0/storages/graph/networkx.py:66-68 | edge rows on distinct pairs, loaded into a graph with no edge, link exactly those pairs with the rows' properties and add no node |
| GraphTables.LoadSavedNodes | mem0/storages/graph/networkx.py:61-63 | the saved node table loads into a fresh graph as the original node dictionary, order included |
| GraphTables.LoadSavedEdges | mem0/storages/graph/networkx.py:66-68 | the saved edge table, loaded over the original nodes, gives the original edges with their attributes |
| GraphTables.LoadSaveRoundTrip | mem0/storages/graph/networkx.py:50-81 | saving and loading into a fresh graph restores the node dictionary exactly, every `get_node` result, and the same edges with the same attributes |
| GraphTables.ThreeNodesFacts | mem0/storages/graph/networkx.py:61-63 | the example's three nodes come in the order loaded, with no neighbours |
| GraphTables.AddFreshEdge | mem0/storages/graph/networkx.py:26-27 | linking two existing, unlinked nodes appends each to the other's neighbours, with exactly the given properties |
| GraphTables.OrderExampleFacts | mem0/storages/graph/networkx.py:26-27 | after `add_edge(b, c)` then `add_edge(a, b)`, `b` lists `c` before `a` |
| GraphTables.ExampleEdgeRows | mem0/storages/graph/networkx.py:79 | in that graph the edges are reported as `(a, b)` then `(b, c)` |
| GraphTables.OrderExampleRows | mem0/storages/graph/networkx.py:79-80 | the example saves as the edge rows `(a, b)` then `(b, c)` |
| GraphTables.LoadTwoEdges | mem0/storages/graph/networkx.py:66-68 | loading two rows is two `add_edge` calls in row order |
| GraphTables.ReloadExampleEdges | mem0/storages/graph/networkx.py:66-68 | reloading `(a, b)` then `(b, c)` makes `b` list `a` before `c` |
| GraphTables.NeighborOrderNotRestored | mem0/storages/graph/networkx.py:50-81 | a graph in which `b` lists `[c, a]` reloads with `b` listing `[a, c]`: the round trip loses neighbour order |
| GraphTables.NewStorage | mem0/storages/graph/networkx.py:9-12 | a new instance has an empty graph and no connection |
| GraphTables.Connect | mem0/storages/graph/networkx.py:14-16 | `connect` opens a connection and loads into the graph held, which stays as it was for an empty database and loses no node |
| GraphTables.LoadNodesKeeps | mem0/storages/graph/networkx.py:61-63 | loading node rows loses no node |
| GraphTables.LoadEdgesKeeps | mem0/storages/graph/networkx.py:66-68 | loading edge rows loses no node |
| GraphTables.LoadKeepsNodes | mem0/storages/graph/networkx.py:50-68 | loading only ever adds nodes |
| GraphTables.Disconnect | mem0/storages/graph/networkx.py:18-21 | without a connection it raises `AttributeError`, after a `disconnect` it raises `ProgrammingError`, and both write nothing; otherwise the tables hold one row per node in order and each edge exactly once, and the connection is closed |
| GraphTables.DisconnectConnectRoundTrip | mem0/storages/graph/networkx.py:14-21 | a new instance connecting to what `disconnect` wrote gets the same nodes, properties and edges |
| QdrantAdapter.SelectParams | mem0/storages/vector/qdrant.py:21-31 | `path`, `api_key` and `url` are passed iff set and non-empty; `host` and `port` are passed together and only when both are set and truthy |
| QdrantAdapter.IsSetStr | mem0/storages/vector/qdrant.py:23-29 | an optional string is falsy iff it is `None` or empty |
| QdrantAdapter.IsSetInt | mem0/storages/vector/qdrant.py:29 | an optional port is falsy iff it is `None` or zero |
| QdrantAdapter.NewStorage | mem0/storages/vector/qdrant.py:17-19 | a new instance keeps its config and has no client |
| QdrantAdapter.Connect | mem0/storages/vector/qdrant.py:21-32 | `connect` replaces any client with one built from the selected parameters |
| QdrantAdapter.Disconnect | mem0/storages/vector/qdrant.py:34-37 | the client is closed and forgotten; without a client nothing is called and nothing changes, so a second `disconnect` is a no-op |
| QdrantAdapter.AddVector | mem0/storages/vector/qdrant.py:39-41 | one point is upserted with the id, the vector, and the metadata as payload, or `{}` when absent; without a client it raises `AttributeError` |
| QdrantAdapter.GetVectorCall | mem0/storages/vector/qdrant.py:43-44 | `get_vector` retrieves the one id with payload and vector |
| QdrantAdapter.GetVectorResult | mem0/storages/vector/qdrant.py:45-48 | no retrieved point raises `KeyError`; otherwise the result is the first point's vector and payload |
| QdrantAdapter.DeleteVectorCall | mem0/storages/vector/qdrant.py:60-61 | `delete_vector` deletes the one id from the collection |
| QdrantAdapter.IsRange | mem0/storages/vector/qdrant.py:72 | only a mapping can be a range, and a mapping is one iff it holds both `gte` and `lte` |
| QdrantAdapter.ConditionFor | mem0/storages/vector/qdrant.py:72-75 | an entry becomes a range condition iff its value is a mapping holding both `gte` and `lte`; otherwise it becomes an equality condition on the whole value |
| QdrantAdapter.Conditions | mem0/storages/vector/qdrant.py:70-75 | one condition per entry, in entry order |
| QdrantAdapter.CreateFilter | mem0/storages/vector/qdrant.py:69-76 | there is no filter iff the mapping is empty; otherwise there is one condition per entry, in entry order |
| QdrantAdapter.SearchCall | mem0/storages/vector/qdrant.py:50-57 | a filter value `MatchValue` refuses raises a validation error, checked before the client; otherwise a missing client raises `AttributeError`; an absent or empty filter mapping sends no filter, any other sends its translation; `k` is the limit |
| QdrantAdapter.SearchResult | mem0/storages/vector/qdrant.py:58 | one `(id, score, payload)` per hit, in the client's order |
| QdrantAdapter.FalsyIsUnset | mem0/storages/vector/qdrant.py:23-31 | an empty string or a zero port selects exactly what leaving the field out selects |
| QdrantAdapter.HalfAddressIgnored | mem0/storages/vector/qdrant.py:21-32 | a host without a port, or a port without a host, builds the same client as leaving both out |
| QdrantAdapter.AddThenGet | mem0/storages/vector/qdrant.py:39-48 | a client that returns the upserted point gives `get_vector` the stored vector and the payload, `{}` for absent metadata |
| QdrantAdapter.DisconnectedRefuses | mem0/storages/vector/qdrant.py:34-61 | after `disconnect` every operation raises `AttributeError`, and `connect` makes them usable again |
| QdrantAdapter.SearchAcceptsIff | mem0/storages/vector/qdrant.py:50-58 | with a client and a non-empty filter mapping, `search` goes ahead iff every condition `_create_filter` builds is one the client's models accept |
| QdrantAdapter.FloatMatchRefused | mem0/storages/vector/qdrant.py:74-75 | the filter `{"x": 1.5}` fails `search` with a validation error, with or without a client |
| QdrantAdapter.AddThenSearch | mem0/storages/vector/qdrant.py:39-58 | a hit on the point `add_vector` upserted comes back from `search` as the id, the score and the metadata, `{}` when absent |

## Left out

- JSON text, `json.load`/`json.dump`, file I/O and SQLite cursors. Each medium is the value its text denotes. A malformed snapshot file, or one whose top level is not an object, is not modelled. Stored values, key-value values included, are JSON values (`Json.Value`): the store's `value: Any` can also hold tuples (which come back as lists), dictionaries with non-string keys (whose keys come back as strings) and objects `json.dump` cannot encode (on which `disconnect` raises `TypeError` after `open(..., 'w')` has already emptied the file). The exact restoration stated by KeyValueStore.Disconnect and KeyValueStore.ReconnectRestores, and by the graph round trip, holds for JSON values only.
- The order of rows returned by `SELECT` without `ORDER BY`. The model assumes insertion order, which SQLite gives for these tables in practice.
- `CREATE TABLE IF NOT EXISTS`. A database that did not exist is two empty tables.
- Floating-point numbers. Vector components, scores and JSON numbers with a fraction are Dafny `real`s.
- The Qdrant client's behaviour: storage, nearest-neighbour search, scoring, and the collection calls `create_collection`, `list_collections`, `delete_collection` and `collection_info`. They are remote calls with nothing to model on this side.
- pydantic validation of `QdrantConfig`, and the client constructor's own checks of the parameter combinations it receives.
- Concurrency, and several instances sharing one file or database. The code has no synchronisation to model.
- The abstract base classes `BaseStorage`, `BaseKeyValueStorage`, `BaseGraphStorage` and `BaseVectorStorage`. They carry no behaviour, and Dafny traits are not used in this model, so each backend is a module of its own.
- `mem0/llms` and `test.py`: they are not part of the storages.
- GraphTables.LoadSaveRoundTrip: does not claim that neighbour order is restored, because it is not (GraphTables.NeighborOrderNotRestored).
- GraphStore.GetNeighbors: the contract gives each record's mapping and leaves its key order to GraphStore.NeighborRecord (`id` first).
- GraphTables.Connect: states that no node is lost and that an empty database changes nothing. The exact graph after loading into a non-empty graph is stated only for an empty starting graph (GraphTables.LoadSaveRoundTrip).
- GraphTables.LoadNodes: loads a row whose properties include `node_for_adding` or `self`, where `add_node` raises `TypeError` (see GraphStore.StoreAddNode). The model's tables come from a graph whose properties passed that check.
- GraphTables.LoadEdges: loads a row whose properties include `u_of_edge`, `v_of_edge` or `self`, where `add_edge` raises `TypeError` (see GraphStore.StoreAddEdge), for the same reason.
- QdrantAdapter.ConditionFor: does not validate range bounds. Whether `Range` accepts a string or other non-number bound depends on the installed pydantic and qdrant-client versions. Only match values are checked, in QdrantAdapter.SearchCall.
- KeyValueStore.Get, KeyValueStore.Set, KeyValueStore.Items, KeyValueStore.Values: values are immutable here. Python stores and returns references, so a caller can mutate a stored value in place, and `items()`/`values()` are live views rather than the snapshots the model returns.
