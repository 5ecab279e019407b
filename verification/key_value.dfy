/**
 * `DefaultKeyValueStorage`: an in-memory dictionary from string keys to
 * structured values, loaded whole from a snapshot file by `connect` and
 * written back whole by `disconnect`.
 *
 * The file is modelled by the value its JSON text denotes: `None` when the
 * file does not exist, `Some(d)` when it holds the object `d`.  `json.dump`
 * writes the keys in dictionary order and `json.load` rebuilds them in
 * document order, so the denoted dictionary keeps its order.
 */
module KeyValueStore {
  import opened Wrappers
  import opened Dicts
  import opened Json
  import opened StorageErrors

  /** The snapshot file as the store sees it. */
  type SnapshotFile = Option<Dict<string, Value>>

  /** The instance state: the `store` dictionary. */
  datatype KvStore = KvStore(store: Dict<string, Value>)

  /** The state after an operation that may raise, and what it raised. */
  datatype Step = Step(after: KvStore, raised: Option<StorageError>)

  ghost predicate Valid(s: KvStore)
  {
    s.store.Valid()
  }

  ghost predicate ValidFile(file: SnapshotFile)
  {
    file.Some? ==> file.value.Valid()
  }

  /** A freshly constructed instance: `self.store = {}`. */
  function New(): (s: KvStore)
    ensures Valid(s)
    ensures Keys(s) == []
  {
    KvStore(Empty())
  }

  /** `keys()`: every stored key once, in insertion order. */
  function Keys(s: KvStore): (r: seq<string>)
    requires Valid(s)
    ensures Distinct(r)
    ensures forall k :: k in r <==> k in s.store.m
  {
    s.store.keys
  }

  /** `get(key)`: the stored value, or `KeyError` when the key is absent. */
  function Get(s: KvStore, key: string): (r: Result<Value, StorageError>)
    requires Valid(s)
    ensures r.Success? <==> key in Keys(s)
    ensures r.Success? ==> r.value == s.store.m[key]
    ensures r.Failure? ==> r.error == KeyNotFound(key)
  {
    if key !in s.store.m then Failure(KeyNotFound(key)) else Success(s.store.m[key])
  }

  /** `set(key, value)`: afterwards `get(key)` is `value` and no other key's lookup changes. */
  function Set(s: KvStore, key: string, value: Value): (r: KvStore)
    requires Valid(s)
    ensures Valid(r)
    ensures Get(r, key) == Success(value)
    ensures forall k :: k != key ==> Get(r, k) == Get(s, k)
    ensures key in Keys(s) ==> Keys(r) == Keys(s)
    ensures key !in Keys(s) ==> Keys(r) == Keys(s) + [key]
  {
    KvStore(Put(s.store, key, value))
  }

  /**
   * `delete(key)`: removes exactly `key`; on an absent key raises `KeyError`
   * before touching the store.
   */
  function Delete(s: KvStore, key: string): (r: Step)
    requires Valid(s)
    ensures Valid(r.after)
    ensures r.raised.Some? <==> key !in Keys(s)
    ensures r.raised.Some? ==> r.raised == Some(KeyNotFound(key)) && r.after == s
    ensures r.raised.None? ==> Get(r.after, key) == Failure(KeyNotFound(key))
    ensures forall k :: k != key ==> Get(r.after, k) == Get(s, k)
    ensures forall i :: 0 <= i < |Keys(s)| && Keys(s)[i] == key ==>
      Keys(r.after) == Keys(s)[..i] + Keys(s)[i + 1..]
  {
    if key !in s.store.m then Step(s, Some(KeyNotFound(key)))
    else Step(KvStore(Remove(s.store, key)), None)
  }

  /** `clear()`: the store becomes empty. */
  function Clear(s: KvStore): (r: KvStore)
    requires Valid(s)
    ensures Valid(r)
    ensures Keys(r) == [] && Len(r) == 0
    ensures forall k :: Get(r, k) == Failure(KeyNotFound(k))
  {
    KvStore(Empty())
  }

  /**
   * `update(other)`: keys of `other` take `other`'s values, every other key
   * keeps its value; keys already stored keep their position, and the keys
   * of `other` not yet stored follow, in `other`'s order.
   */
  function Update(s: KvStore, other: Dict<string, Value>): (r: KvStore)
    requires Valid(s) && other.Valid()
    ensures Valid(r)
    ensures forall k :: Get(r, k) == if k in other.m then Success(other.m[k]) else Get(s, k)
    ensures Keys(r) == Keys(s) + Fresh(other.keys, s.store.m)
  {
    KvStore(Merge(s.store, other))
  }

  /** `items()`: the pairs `(k, get(k))` in key order. */
  function Items(s: KvStore): (r: seq<(string, Value)>)
    requires Valid(s)
    ensures |r| == |Keys(s)|
    ensures forall i :: 0 <= i < |r| ==> r[i].0 == Keys(s)[i] && Get(s, r[i].0) == Success(r[i].1)
  {
    Dicts.Items(s.store)
  }

  /** `values()`: the stored values in key order. */
  function Values(s: KvStore): (r: seq<Value>)
    requires Valid(s)
    ensures |r| == |Keys(s)|
    ensures forall i :: 0 <= i < |r| ==> Get(s, Keys(s)[i]) == Success(r[i])
  {
    Dicts.Values(s.store)
  }

  /** `get_or_default(key, default)`: `get(key)` when it succeeds, `default` when it raises. */
  function GetOrDefault(s: KvStore, key: string, default: Value): (r: Value)
    requires Valid(s)
    ensures key in Keys(s) ==> Get(s, key) == Success(r)
    ensures key !in Keys(s) ==> r == default
  {
    if key in s.store.m then s.store.m[key] else default
  }

  /** `len(store)`: the number of keys `keys()` lists, which is the number of distinct stored keys. */
  function Len(s: KvStore): (r: nat)
    requires Valid(s)
    ensures r == |Keys(s)|
    ensures r == |s.store.m|
  {
    LengthIsDomainSize(s.store);
    |s.store.m|
  }

  /** `key in store`: holds exactly for the keys `keys()` lists. */
  function Contains(s: KvStore, key: string): (r: bool)
    requires Valid(s)
    ensures r <==> key in Keys(s)
    ensures r <==> Get(s, key).Success?
  {
    key in s.store.m
  }

  /** `iter(store)`: the keys, in the order `keys()` lists them. */
  function Iterate(s: KvStore): (r: seq<string>)
    requires Valid(s)
    ensures r == Keys(s)
  {
    s.store.keys
  }

  /**
   * `connect()`: the state becomes the file's dictionary, or `{}` when the
   * file is missing; whatever the instance held before is discarded.
   */
  function Connect(s: KvStore, file: SnapshotFile): (r: KvStore)
    requires ValidFile(file)
    ensures Valid(r)
    ensures file.None? ==> Keys(r) == [] && Len(r) == 0
    ensures file.Some? ==> r.store == file.value
  {
    match file
    case None => KvStore(Empty())
    case Some(d) => KvStore(d)
  }

  /**
   * `disconnect()`: overwrites the file with the whole dictionary, so that a
   * fresh instance connecting to it sees exactly this state.  The instance
   * itself keeps its state.
   */
  function Disconnect(s: KvStore): (file: SnapshotFile)
    requires Valid(s)
    ensures ValidFile(file) && file.Some?
    ensures Connect(New(), file) == s
  {
    Some(s.store)
  }

  /**
   * Whatever an instance held, connecting it to the file another instance's
   * `disconnect()` wrote gives that other instance's state.
   */
  lemma ReconnectRestores(s: KvStore, t: KvStore)
    requires Valid(s)
    ensures Connect(t, Disconnect(s)) == s
  {
  }

  /** Sets each key of `ks` to `v`, in order: a caller's sequence of `set` calls. */
  function SetEach(s: KvStore, ks: seq<string>, v: Value): (r: KvStore)
    requires Valid(s)
    ensures Valid(r)
    decreases |ks|
  {
    if ks == [] then s else Set(SetEach(s, ks[..|ks| - 1], v), ks[|ks| - 1], v)
  }

  /** After `set` on N distinct keys, `keys()` returns exactly those N keys, in the order set. */
  lemma {:induction false} DistinctSetsListed(ks: seq<string>, v: Value)
    requires Distinct(ks)
    ensures Keys(SetEach(New(), ks, v)) == ks
    ensures Len(SetEach(New(), ks, v)) == |ks|
    decreases |ks|
  {
    if ks != [] {
      var front := ks[..|ks| - 1];
      assert ks == front + [ks[|ks| - 1]];
      DistinctSetsListed(front, v);
    }
  }

  /** `set` then `delete` of a key that was absent restores the original store. */
  lemma SetThenDeleteFresh(s: KvStore, key: string, v: Value)
    requires Valid(s) && key !in Keys(s)
    ensures Delete(Set(s, key, v), key) == Step(s, None)
  {
    PutThenRemove(s.store, key, v);
  }
}
