/**
 * The pure part of `QdrantVectorStorage`: which constructor parameters
 * `connect` passes to the client, what each operation sends to the client,
 * and how the client's replies become results.  The client itself (storage,
 * nearest-neighbour search, scoring, collections) is outside the model: a
 * `Client` is an opaque record of the parameters it was built from, every
 * operation yields the `Call` it makes on it, and replies are parameters.
 */
module QdrantAdapter {
  import opened Wrappers
  import opened Dicts
  import opened Json
  import opened StorageErrors

  /** `QdrantConfig`: every field is optional. */
  datatype QdrantConfig = QdrantConfig(
    host: Option<string>,
    port: Option<int>,
    path: Option<string>,
    url: Option<string>,
    apiKey: Option<string>)

  /** The keyword arguments `connect` may pass to `QdrantClient(...)`. */
  datatype ParamName = Path | ApiKey | Url | Host | Port

  /** The value of a keyword argument. */
  datatype Param = StrParam(s: string) | IntParam(n: int)

  /** The opaque client, known only by the keyword arguments it was built with. */
  datatype Client = Client(params: map<ParamName, Param>)

  /** A `QdrantVectorStorage` instance: its config and its client, `None` while disconnected. */
  datatype VectorStorage = VectorStorage(config: QdrantConfig, client: Option<Client>)

  type Vector = seq<real>
  type PointId = string

  /** A point as the client stores and returns it. */
  datatype Point = Point(id: PointId, vector: Vector, payload: Props)

  /** A search hit: the point's id, its score and its payload. */
  datatype ScoredPoint = ScoredPoint(id: PointId, score: real, payload: Props)

  /** A filter condition on one payload field. */
  datatype Condition =
    | RangeCondition(key: string, gte: Value, lte: Value)
    | MatchCondition(key: string, value: Value)

  /** `Filter(must=conditions)`: every condition must hold. */
  datatype Filter = Filter(must: seq<Condition>)

  /** The calls the adapter makes on the client. */
  datatype Call =
    | Close
    | Upsert(collection: string, points: seq<Point>)
    | Retrieve(collection: string, ids: seq<PointId>, withPayload: bool, withVectors: bool)
    | Search(collection: string, queryVector: Vector, queryFilter: Option<Filter>, limit: int)
    | DeletePoints(collection: string, ids: seq<PointId>)

  /** The collection every operation uses when none is named. */
  const DefaultCollection: string := "default"

  /** The number of hits `search` asks for when `k` is not given. */
  const DefaultLimit: int := 10

  // ------------------------------------------------------------ connecting

  /** Python truthiness of an optional string: set and not empty. */
  predicate IsSetStr(o: Option<string>): (r: bool)
    ensures !r <==> o == None || o == Some("")
  {
    o.Some? && o.value != ""
  }

  /** Python truthiness of an optional integer: set and not zero. */
  predicate IsSetInt(o: Option<int>): (r: bool)
    ensures !r <==> o == None || o == Some(0)
  {
    o.Some? && o.value != 0
  }

  /** Adds `name := value` when `cond` holds. */
  function PutIf(d: map<ParamName, Param>, cond: bool, name: ParamName, value: Param): (r: map<ParamName, Param>)
    ensures cond ==> r == d[name := value]
    ensures !cond ==> r == d
  {
    if cond then d[name := value] else d
  }

  /**
   * The parameter selection of `connect`: `path`, `api_key` and `url` each
   * when set, and `host` with `port` only when both are set.
   */
  function SelectParams(c: QdrantConfig): (r: map<ParamName, Param>)
    ensures Path in r <==> IsSetStr(c.path)
    ensures ApiKey in r <==> IsSetStr(c.apiKey)
    ensures Url in r <==> IsSetStr(c.url)
    ensures Host in r <==> IsSetStr(c.host) && IsSetInt(c.port)
    ensures Port in r <==> Host in r
    ensures Path in r ==> r[Path] == StrParam(c.path.value)
    ensures ApiKey in r ==> r[ApiKey] == StrParam(c.apiKey.value)
    ensures Url in r ==> r[Url] == StrParam(c.url.value)
    ensures Host in r ==> r[Host] == StrParam(c.host.value) && r[Port] == IntParam(c.port.value)
  {
    var both := IsSetStr(c.host) && IsSetInt(c.port);
    var d0 := PutIf(map[], IsSetStr(c.path), Path, if c.path.Some? then StrParam(c.path.value) else StrParam(""));
    var d1 := PutIf(d0, IsSetStr(c.apiKey), ApiKey, if c.apiKey.Some? then StrParam(c.apiKey.value) else StrParam(""));
    var d2 := PutIf(d1, IsSetStr(c.url), Url, if c.url.Some? then StrParam(c.url.value) else StrParam(""));
    var d3 := PutIf(d2, both, Host, if c.host.Some? then StrParam(c.host.value) else StrParam(""));
    PutIf(d3, both, Port, if c.port.Some? then IntParam(c.port.value) else IntParam(0))
  }

  /** `__init__`: the config is kept and there is no client yet. */
  function NewStorage(config: QdrantConfig): (s: VectorStorage)
    ensures s.config == config && s.client.None?
  {
    VectorStorage(config, None)
  }

  /** `connect`: a new client built from the selected parameters replaces any previous one. */
  function Connect(s: VectorStorage): (r: VectorStorage)
    ensures r.config == s.config
    ensures r.client.Some? && r.client.value.params == SelectParams(s.config)
  {
    VectorStorage(s.config, Some(Client(SelectParams(s.config))))
  }

  /**
   * `disconnect`: closes the client and forgets it; without a client there is
   * nothing to close and nothing changes.
   */
  function Disconnect(s: VectorStorage): (r: (VectorStorage, seq<Call>))
    ensures r.0.config == s.config && r.0.client.None?
    ensures s.client.Some? ==> r.1 == [Close]
    ensures s.client.None? ==> r.0 == s && r.1 == []
  {
    if s.client.Some? then (VectorStorage(s.config, None), [Close]) else (s, [])
  }

  // ------------------------------------------------------------ operations

  /** `add_vector`: one point, with the metadata (or `{}`) as its payload, upserted into the collection. */
  function AddVector(s: VectorStorage, id: PointId, vector: Vector, metadata: Option<Props>, collection: string): (r: Result<Call, StorageError>)
    requires metadata.Some? ==> metadata.value.Valid()
    ensures r.Failure? <==> s.client.None?
    ensures r.Failure? ==> r.error == NotConnected
    ensures r.Success? ==>
              && r.value.Upsert?
              && r.value.collection == collection
              && |r.value.points| == 1
              && r.value.points[0].id == id
              && r.value.points[0].vector == vector
              && (metadata.None? ==> r.value.points[0].payload == Empty())
              && (metadata.Some? ==> r.value.points[0].payload == metadata.value)
  {
    if s.client.None? then Failure(NotConnected)
    else Success(Upsert(collection, [Point(id, vector, PropsOrEmpty(metadata))]))
  }

  /** The request `get_vector` makes: the one id, with payload and vector. */
  function GetVectorCall(s: VectorStorage, id: PointId, collection: string): (r: Result<Call, StorageError>)
    ensures r.Failure? <==> s.client.None?
    ensures r.Failure? ==> r.error == NotConnected
    ensures r.Success? ==> r.value == Retrieve(collection, [id], true, true)
  {
    if s.client.None? then Failure(NotConnected) else Success(Retrieve(collection, [id], true, true))
  }

  /** What `get_vector` makes of the retrieved points: `KeyError` when there is none, else the first one's vector and payload. */
  function GetVectorResult(id: PointId, points: seq<Point>): (r: Result<(Vector, Props), StorageError>)
    ensures r.Failure? <==> points == []
    ensures r.Failure? ==> r.error == VectorNotFound(id)
    ensures r.Success? ==> r.value == (points[0].vector, points[0].payload)
  {
    if points == [] then Failure(VectorNotFound(id)) else Success((points[0].vector, points[0].payload))
  }

  /** `delete_vector`: the one id is deleted from the collection. */
  function DeleteVectorCall(s: VectorStorage, id: PointId, collection: string): (r: Result<Call, StorageError>)
    ensures r.Failure? <==> s.client.None?
    ensures r.Failure? ==> r.error == NotConnected
    ensures r.Success? ==> r.value == DeletePoints(collection, [id])
  {
    if s.client.None? then Failure(NotConnected) else Success(DeletePoints(collection, [id]))
  }

  // ---------------------------------------------------------------- filters

  /** The test `_create_filter` applies to a value: a mapping holding both `gte` and `lte`. */
  predicate IsRange(v: Value): (r: bool)
    ensures r ==> v.Object?
    ensures v.Object? ==> (r <==> {"gte", "lte"} <= v.fields.m.Keys)
  {
    v.Object? && "gte" in v.fields.m && "lte" in v.fields.m
  }

  /** The condition one filter entry becomes. */
  function ConditionFor(key: string, v: Value): (c: Condition)
    ensures c.key == key
    ensures c.RangeCondition? <==> IsRange(v)
    ensures c.RangeCondition? ==> c.gte == v.fields.m["gte"] && c.lte == v.fields.m["lte"]
    ensures c.MatchCondition? ==> c.value == v
  {
    if IsRange(v) then RangeCondition(key, v.fields.m["gte"], v.fields.m["lte"]) else MatchCondition(key, v)
  }

  /** The conditions of the entries `keys`, in that order. */
  function Conditions(keys: seq<string>, m: map<string, Value>): (cs: seq<Condition>)
    requires forall k :: k in keys ==> k in m
    ensures |cs| == |keys|
    ensures forall i :: 0 <= i < |keys| ==> cs[i] == ConditionFor(keys[i], m[keys[i]])
    decreases |keys|
  {
    if keys == [] then []
    else
      var front := keys[..|keys| - 1];
      var k := keys[|keys| - 1];
      assert forall x :: x in front ==> x in keys;
      Conditions(front, m) + [ConditionFor(k, m[k])]
  }

  /**
   * `_create_filter`: one condition per entry, in entry order, keyed by the
   * entry's field; no filter at all for an empty mapping.
   */
  function CreateFilter(filters: Dict<string, Value>): (r: Option<Filter>)
    requires filters.Valid()
    ensures r.None? <==> filters.keys == []
    ensures r.Some? ==>
              && |r.value.must| == |filters.keys|
              && forall i :: 0 <= i < |filters.keys| ==> r.value.must[i] == ConditionFor(filters.keys[i], filters.m[filters.keys[i]])
  {
    var cs := Conditions(filters.keys, filters.m);
    if cs == [] then None else Some(Filter(cs))
  }

  /** The values `MatchValue(value=...)` accepts: a bool, an integer or a string. */
  predicate Matchable(v: Value)
  {
    v.Bool? || v.Int? || v.Str?
  }

  /** A condition the client's models build without complaint (range bounds are not checked here). */
  predicate Accepted(c: Condition)
  {
    c.RangeCondition? || Matchable(c.value)
  }

  /** Some entry of the mapping becomes a match condition on a value `MatchValue` refuses. */
  predicate HasUnmatchable(filters: Dict<string, Value>)
    requires filters.Valid()
  {
    exists i :: 0 <= i < |filters.keys| && !IsRange(filters.m[filters.keys[i]]) && !Matchable(filters.m[filters.keys[i]])
  }

  /**
   * `search`'s query: a filter only for a non-empty mapping, and `k` as the
   * limit.  The filter is built before the client is touched, so a value
   * `MatchValue` refuses fails the call even without a client.
   */
  function SearchCall(s: VectorStorage, queryVector: Vector, k: int, collection: string, filters: Option<Dict<string, Value>>): (r: Result<Call, StorageError>)
    requires filters.Some? ==> filters.value.Valid()
    ensures r.Failure? <==> s.client.None? || (filters.Some? && HasUnmatchable(filters.value))
    ensures filters.Some? && HasUnmatchable(filters.value) ==> r.error == InvalidFilterValue
    ensures r.Failure? && !(filters.Some? && HasUnmatchable(filters.value)) ==> r.error == NotConnected
    ensures r.Success? ==>
              && r.value.Search?
              && r.value.collection == collection
              && r.value.queryVector == queryVector
              && r.value.limit == k
              && (r.value.queryFilter.None? <==> filters.None? || filters.value.keys == [])
              && (r.value.queryFilter.Some? ==> r.value.queryFilter == CreateFilter(filters.value))
  {
    if filters.Some? && HasUnmatchable(filters.value) then Failure(InvalidFilterValue)
    else if s.client.None? then Failure(NotConnected)
    else
      var f := if filters.Some? && filters.value.keys != [] then CreateFilter(filters.value) else None;
      Success(Search(collection, queryVector, f, k))
  }

  /** `search`'s result: one `(id, score, payload)` per hit, in the order of the hits. */
  function SearchResult(hits: seq<ScoredPoint>): (r: seq<(PointId, real, Props)>)
    ensures |r| == |hits|
    ensures forall i :: 0 <= i < |hits| ==> r[i] == (hits[i].id, hits[i].score, hits[i].payload)
  {
    seq(|hits|, i requires 0 <= i < |hits| => (hits[i].id, hits[i].score, hits[i].payload))
  }

  // ------------------------------------------------------------- properties

  /** The config with Python's falsy values (`""`, `0`) written as absent. */
  function Normalized(c: QdrantConfig): (n: QdrantConfig)
    ensures IsSetStr(n.host) == IsSetStr(c.host) && IsSetInt(n.port) == IsSetInt(c.port)
    ensures IsSetStr(n.path) == IsSetStr(c.path) && IsSetStr(n.url) == IsSetStr(c.url)
    ensures IsSetStr(n.apiKey) == IsSetStr(c.apiKey)
  {
    QdrantConfig(
      if IsSetStr(c.host) then c.host else None,
      if IsSetInt(c.port) then c.port else None,
      if IsSetStr(c.path) then c.path else None,
      if IsSetStr(c.url) then c.url else None,
      if IsSetStr(c.apiKey) then c.apiKey else None)
  }

  /** An empty string or a zero port selects exactly what leaving the field out selects. */
  lemma FalsyIsUnset(c: QdrantConfig)
    ensures SelectParams(Normalized(c)) == SelectParams(c)
  {
    var n := Normalized(c);
    var r, s := SelectParams(n), SelectParams(c);
    assert r.Keys == s.Keys;
    forall k | k in r
      ensures r[k] == s[k]
    {
    }
  }

  /**
   * A host without a port, or a port without a host, is ignored: `connect`
   * builds the same client as with neither set.
   */
  lemma HalfAddressIgnored(s: VectorStorage)
    requires IsSetStr(s.config.host) != IsSetInt(s.config.port)
    ensures Connect(s).client == Connect(s.(config := s.config.(host := None, port := None))).client
  {
    var c := s.config;
    var c2 := c.(host := None, port := None);
    var r, r2 := SelectParams(c), SelectParams(c2);
    assert r.Keys == r2.Keys;
    forall k | k in r
      ensures r[k] == r2[k]
    {
    }
  }

  /** A client that stores the upserted point returns its vector and payload to `get_vector`. */
  lemma AddThenGet(s: VectorStorage, id: PointId, vector: Vector, metadata: Option<Props>, collection: string)
    requires s.client.Some?
    requires metadata.Some? ==> metadata.value.Valid()
    ensures var call := AddVector(s, id, vector, metadata, collection);
            && call.Success?
            && GetVectorCall(s, id, collection) == Success(Retrieve(collection, [id], true, true))
            && GetVectorResult(id, call.value.points) == Success((vector, PropsOrEmpty(metadata)))
  {
  }

  /** After `disconnect` every operation fails for want of a client, and `connect` makes them usable again. */
  lemma DisconnectedRefuses(s: VectorStorage, id: PointId, vector: Vector, metadata: Option<Props>, collection: string)
    requires metadata.Some? ==> metadata.value.Valid()
    ensures var d := Disconnect(s).0;
            && AddVector(d, id, vector, metadata, collection) == Failure(NotConnected)
            && GetVectorCall(d, id, collection) == Failure(NotConnected)
            && DeleteVectorCall(d, id, collection) == Failure(NotConnected)
            && SearchCall(d, vector, DefaultLimit, collection, None) == Failure(NotConnected)
            && AddVector(Connect(d), id, vector, metadata, collection).Success?
  {
  }

  /**
   * With a client and a non-empty filter mapping, `search` goes ahead exactly
   * when every condition `_create_filter` builds is one the client's models
   * accept.
   */
  lemma SearchAcceptsIff(s: VectorStorage, queryVector: Vector, k: int, collection: string, filters: Dict<string, Value>)
    requires s.client.Some? && filters.Valid() && filters.keys != []
    ensures CreateFilter(filters).Some?
    ensures SearchCall(s, queryVector, k, collection, Some(filters)).Success? <==>
              forall i :: 0 <= i < |filters.keys| ==> Accepted(CreateFilter(filters).value.must[i])
  {
    var must := CreateFilter(filters).value.must;
    forall i | 0 <= i < |filters.keys|
      ensures Accepted(must[i]) <==> IsRange(filters.m[filters.keys[i]]) || Matchable(filters.m[filters.keys[i]])
    {
      assert must[i] == ConditionFor(filters.keys[i], filters.m[filters.keys[i]]);
    }
  }

  /** A float to match on, `{"x": 1.5}`, fails `search` whether or not there is a client. */
  lemma FloatMatchRefused(s: VectorStorage, queryVector: Vector, k: int, collection: string)
    ensures SearchCall(s, queryVector, k, collection, Some(Dict(["x"], map["x" := Float(1.5)]))) == Failure(InvalidFilterValue)
  {
    var f := Dict(["x"], map["x" := Float(1.5)]);
    assert f.Valid();
    assert !IsRange(f.m[f.keys[0]]) && !Matchable(f.m[f.keys[0]]);
  }

  /**
   * A client that reports the point `add_vector` upserted as a search hit
   * gives `search` back the id, the score and the metadata (`{}` when absent).
   */
  lemma AddThenSearch(s: VectorStorage, id: PointId, vector: Vector, metadata: Option<Props>, collection: string, score: real)
    requires s.client.Some?
    requires metadata.Some? ==> metadata.value.Valid()
    ensures var call := AddVector(s, id, vector, metadata, collection);
            && call.Success?
            && var p := call.value.points[0];
               SearchResult([ScoredPoint(p.id, score, p.payload)]) == [(id, score, PropsOrEmpty(metadata))]
  {
  }
}
