/**
 * The structured values the stores hold: what a JSON document (the key-value
 * snapshot file, the graph's `properties` columns) and a Qdrant payload can
 * carry.  Objects are insertion-ordered dictionaries, like the Python `dict`s
 * they stand for.
 */
module Json {
  import opened Wrappers
  import opened Dicts

  datatype Value =
    | Null
    | Bool(b: bool)
    | Int(i: int)
    | Float(f: real)
    | Str(s: string)
    | Array(items: seq<Value>)
    /**
     * A nested object.  Its dictionary is not required to be `Valid()`: the
     * stores keep, compare and return a value whole and never list a nested
     * object's keys, and the one reader of its contents (a filter's range
     * test) looks only at which keys its mapping holds.
     */
    | Object(fields: Dict<string, Value>)

  /** A property mapping: node and edge attributes, vector metadata. */
  type Props = Dict<string, Value>

  /** `properties or {}` / `metadata or {}`: both `None` and `{}` stand for no properties. */
  function PropsOrEmpty(properties: Option<Props>): (p: Props)
    requires properties.Some? ==> properties.value.Valid()
    ensures p.Valid()
    ensures properties.Some? ==> p == properties.value
    ensures properties.None? ==> p == Empty()
  {
    properties.GetOr(Empty())
  }
}

/**
 * The error taxonomy shared by the three stores: each constructor stands for
 * an exception the Python code raises (or lets escape).
 */
module StorageErrors {

  datatype StorageError =
    /** `KeyError(f"Key '{key}' not found in the store")`. */
    | KeyNotFound(key: string)
    /** `KeyError(f"Node {node_id} not found in the graph")`. */
    | NodeNotFound(nodeId: string)
    /** `KeyError(f"Vector with id {id} not found")`. */
    | VectorNotFound(id: string)
    /** `ValueError("Unsupported query format")`. */
    | UnsupportedQuery
    /** `AttributeError` from calling a method on a connection or client that is `None`. */
    | NotConnected
    /** `sqlite3.ProgrammingError` from using a connection after `close()`. */
    | ClosedDatabase
    /** `TypeError`: a property passed as `**properties` binds a named parameter a second time. */
    | DuplicateArgument
    /** pydantic's `ValidationError` from building a filter condition the client's models refuse. */
    | InvalidFilterValue
}
