/**
 * Insertion-ordered dictionaries: the semantics of Python's built-in `dict`,
 * on which every store of the model is built.  A dictionary remembers its
 * keys in the order they were first inserted; re-assigning a present key
 * keeps its position, deleting a key drops it from the order.
 */
module Dicts {

  /** True iff no element of `s` occurs twice. */
  predicate Distinct<T(==)>(s: seq<T>)
  {
    forall i, j :: 0 <= i < j < |s| ==> s[i] != s[j]
  }

  /** `keys` is the iteration order, `m` the key-to-value mapping. */
  datatype Dict<K(==,!new), V> = Dict(keys: seq<K>, m: map<K, V>) {

    /** Every key occurs once in the order, and the order lists exactly the map's domain. */
    ghost predicate Valid()
    {
      && Distinct(keys)
      && (forall k :: k in m <==> k in keys)
    }
  }

  /** The empty dictionary, `{}`. */
  function Empty<K(==,!new), V>(): (d: Dict<K, V>)
    ensures d.Valid()
    ensures d.m == map[] && d.keys == []
  {
    Dict([], map[])
  }

  /** `d[k] = v`: a present key keeps its place, a new key goes last. */
  function Put<K(==,!new), V>(d: Dict<K, V>, k: K, v: V): (r: Dict<K, V>)
    requires d.Valid()
    ensures r.Valid()
    ensures r.m == d.m[k := v]
    ensures k in d.m ==> r.keys == d.keys
    ensures k !in d.m ==> r.keys == d.keys + [k]
  {
    if k in d.m then Dict(d.keys, d.m[k := v]) else Dict(d.keys + [k], d.m[k := v])
  }

  /** `s` with every occurrence of `k` dropped, the rest in their original order. */
  function Without<K(==,!new)>(s: seq<K>, k: K): (r: seq<K>)
    ensures forall x :: x in r <==> x in s && x != k
    ensures Distinct(s) ==> Distinct(r)
    ensures k !in s ==> r == s
  {
    if s == [] then []
    else if s[0] == k then Without(s[1..], k)
    else
      var rest := Without(s[1..], k);
      assert k !in s ==> rest == s[1..];
      assert s == [s[0]] + s[1..];
      assert Distinct(s) ==> Distinct([s[0]] + rest) by {
        if Distinct(s) {
          assert s[0] !in s[1..];
          DistinctPrepend(s[0], rest);
        }
      }
      [s[0]] + rest
  }

  lemma DistinctPrepend<T>(x: T, t: seq<T>)
    requires Distinct(t) && x !in t
    ensures Distinct([x] + t)
  {
  }

  /** Dropping a key that sits at index `i` of a duplicate-free sequence splices it out there. */
  lemma {:induction false} WithoutAt<K(!new)>(s: seq<K>, k: K, i: nat)
    requires Distinct(s) && i < |s| && s[i] == k
    ensures Without(s, k) == s[..i] + s[i + 1..]
  {
    if i == 0 {
      assert k !in s[1..];
    } else {
      var tail := s[1..];
      assert s[0] != k by {
        assert s[0] == s[0] && s[i] == k;
      }
      assert Distinct(tail) by {
        forall a, b | 0 <= a < b < |tail|
          ensures tail[a] != tail[b]
        {
          assert tail[a] == s[a + 1] && tail[b] == s[b + 1];
        }
      }
      WithoutAt(tail, k, i - 1);
      assert Without(s, k) == [s[0]] + Without(tail, k);
      SpliceCons(s, i);
    }
  }

  /** Splicing out index `i > 0` of `s` is splicing out index `i - 1` of its tail, behind `s[0]`. */
  lemma SpliceCons<K>(s: seq<K>, i: nat)
    requires 0 < i < |s|
    ensures s[..i] + s[i + 1..] == [s[0]] + (s[1..][..i - 1] + s[1..][i..])
  {
    assert s[1..][..i - 1] == s[1..i] && s[1..][i..] == s[i + 1..];
    assert s[..i] == [s[0]] + s[1..i];
  }

  /** `del d[k]` on a present key; an absent key leaves `d` as it is. */
  function Remove<K(==,!new), V>(d: Dict<K, V>, k: K): (r: Dict<K, V>)
    requires d.Valid()
    ensures r.Valid()
    ensures r.m == d.m - {k}
    ensures forall i :: 0 <= i < |d.keys| && d.keys[i] == k ==> r.keys == d.keys[..i] + d.keys[i + 1..]
    ensures k !in d.m ==> r == d
  {
    forall i | 0 <= i < |d.keys| && d.keys[i] == k
      ensures Without(d.keys, k) == d.keys[..i] + d.keys[i + 1..]
    {
      WithoutAt(d.keys, k, i);
    }
    Dict(Without(d.keys, k), d.m - {k})
  }

  /**
   * The keys of `ks` that `m` does not hold, each once, in the order of their
   * first occurrence in `ks`: the keys a run of assignments appends.
   */
  function Fresh<K(==,!new), V>(ks: seq<K>, m: map<K, V>): seq<K>
    decreases |ks|
  {
    if ks == [] then []
    else
      var front := ks[..|ks| - 1];
      var k := ks[|ks| - 1];
      Fresh(front, m) + (if k in m || k in front then [] else [k])
  }

  /** The fresh keys are exactly the keys of `ks` outside `m`, each listed once. */
  lemma {:induction false} FreshMembers<K(!new), V>(ks: seq<K>, m: map<K, V>)
    ensures forall x :: x in Fresh(ks, m) <==> x in ks && x !in m
    ensures Distinct(Fresh(ks, m))
    decreases |ks|
  {
    if ks != [] {
      var front := ks[..|ks| - 1];
      var k := ks[|ks| - 1];
      assert ks == front + [k];
      FreshMembers(front, m);
    }
  }

  /** Assigns `src[k]` to each key of `ks` in turn, as a `for` loop of `d[k] = src[k]`. */
  function PutAll<K(==,!new), V>(d: Dict<K, V>, ks: seq<K>, src: map<K, V>): (r: Dict<K, V>)
    requires d.Valid()
    requires forall k :: k in ks ==> k in src
    ensures r.Valid()
    ensures r.m.Keys == d.m.Keys + (set k | k in ks)
    ensures forall k :: k in r.m ==> r.m[k] == if k in ks then src[k] else d.m[k]
    ensures r.keys == d.keys + Fresh(ks, d.m)
    decreases |ks|
  {
    if ks == [] then d
    else
      var front := ks[..|ks| - 1];
      var k := ks[|ks| - 1];
      assert ks == front + [k];
      var r0 := PutAll(d, front, src);
      PutStepOrder(d.keys, d.m, r0, front, k, src[k]);
      Put(r0, k, src[k])
  }

  /** One more assignment extends the appended keys by `k` exactly when `k` is new. */
  lemma PutStepOrder<K(!new), V>(dk: seq<K>, dm: map<K, V>, r0: Dict<K, V>, front: seq<K>, k: K, v: V)
    requires r0.Valid()
    requires r0.keys == dk + Fresh(front, dm)
    requires k in r0.m <==> k in dm || k in front
    ensures Put(r0, k, v).keys == dk + Fresh(front + [k], dm)
  {
    FreshSnoc(front, k, dm);
    if !(k in dm || k in front) {
      SnocAssoc(dk, Fresh(front, dm), k);
    }
  }

  lemma FreshSnoc<K(!new), V>(front: seq<K>, k: K, m: map<K, V>)
    ensures Fresh(front + [k], m) == Fresh(front, m) + (if k in m || k in front then [] else [k])
  {
    var ks := front + [k];
    assert ks[..|ks| - 1] == front && ks[|ks| - 1] == k;
  }

  lemma SnocAssoc<T>(a: seq<T>, b: seq<T>, x: T)
    ensures (a + b) + [x] == a + (b + [x])
  {
  }

  /**
   * `d.update(other)`: the keys of `other` take `other`'s values; the old keys
   * keep their places and `other`'s new keys follow, in `other`'s order.
   */
  function Merge<K(==,!new), V>(d: Dict<K, V>, other: Dict<K, V>): (r: Dict<K, V>)
    requires d.Valid() && other.Valid()
    ensures r.Valid()
    ensures r.m == d.m + other.m
    ensures r.keys == d.keys + Fresh(other.keys, d.m)
  {
    var r := PutAll(d, other.keys, other.m);
    UpdatedMap(r.m, d.m, other);
    r
  }

  /** A map built by assigning every key of `other` over `dm` is `dm + other.m`. */
  lemma UpdatedMap<K(!new), V>(rm: map<K, V>, dm: map<K, V>, other: Dict<K, V>)
    requires other.Valid()
    requires rm.Keys == dm.Keys + (set k | k in other.keys)
    requires forall k :: k in rm ==> rm[k] == if k in other.keys then other.m[k] else dm[k]
    ensures rm == dm + other.m
  {
    var u := dm + other.m;
    assert (set k | k in other.keys) == other.m.Keys;
    assert rm.Keys == u.Keys;
    forall k | k in rm
      ensures rm[k] == u[k]
    {
      if k in other.m {
      } else {
      }
    }
  }

  /** Updating keeps the old keys first, in their old order. */
  lemma MergeKeepsOrder<K(!new), V>(d: Dict<K, V>, other: Dict<K, V>)
    requires d.Valid() && other.Valid()
    ensures |d.keys| <= |Merge(d, other).keys| && Merge(d, other).keys[..|d.keys|] == d.keys
  {
    var r := Merge(d, other);
    assert r.keys == d.keys + Fresh(other.keys, d.m);
  }

  /** Updating with keys that are all present changes no key's position. */
  lemma MergeExistingKeys<K(!new), V>(d: Dict<K, V>, other: Dict<K, V>)
    requires d.Valid() && other.Valid()
    requires other.m.Keys <= d.m.Keys
    ensures Merge(d, other).keys == d.keys
  {
    FreshOfPresent(other.keys, d.m);
  }

  /** When every key of `ks` is in `m`, none is fresh. */
  lemma {:induction false} FreshOfPresent<K(!new), V>(ks: seq<K>, m: map<K, V>)
    requires forall k :: k in ks ==> k in m
    ensures Fresh(ks, m) == []
    decreases |ks|
  {
    if ks != [] {
      var front := ks[..|ks| - 1];
      assert forall k :: k in front ==> k in ks;
      FreshOfPresent(front, m);
    }
  }

  /** Updating with keys that are all absent appends them in `other`'s order. */
  lemma MergeNewKeys<K(!new), V>(d: Dict<K, V>, other: Dict<K, V>)
    requires d.Valid() && other.Valid()
    requires other.m.Keys !! d.m.Keys
    ensures Merge(d, other).keys == d.keys + other.keys
  {
    FreshOfAbsent(other.keys, d.m);
  }

  /** When no key of the duplicate-free `ks` is in `m`, all of `ks` is fresh. */
  lemma {:induction false} FreshOfAbsent<K(!new), V>(ks: seq<K>, m: map<K, V>)
    requires Distinct(ks)
    requires forall k :: k in ks ==> k !in m
    ensures Fresh(ks, m) == ks
    decreases |ks|
  {
    if ks != [] {
      var front := ks[..|ks| - 1];
      assert ks == front + [ks[|ks| - 1]];
      FreshOfAbsent(front, m);
    }
  }

  /** Against a map holding only `k`, the fresh keys of a duplicate-free `ks` are `ks` without `k`. */
  lemma {:induction false} FreshOfSingleton<K(!new), V>(ks: seq<K>, m: map<K, V>, k: K)
    requires Distinct(ks) && m.Keys == {k}
    ensures Fresh(ks, m) == Without(ks, k)
    decreases |ks|
  {
    if ks != [] {
      var front := ks[..|ks| - 1];
      var x := ks[|ks| - 1];
      assert ks == front + [x];
      FreshOfSingleton(front, m, k);
      WithoutSnoc(front, x, k);
    }
  }

  /** Dropping `k` from `s + [x]` drops it from `s` and keeps `x` unless it is `k`. */
  lemma {:induction false} WithoutSnoc<K(!new)>(s: seq<K>, x: K, k: K)
    ensures Without(s + [x], k) == Without(s, k) + (if x == k then [] else [x])
    decreases |s|
  {
    if s != [] {
      assert (s + [x])[1..] == s[1..] + [x];
      WithoutSnoc(s[1..], x, k);
    }
  }

  /** Storing a new key and then deleting it gives back the dictionary, order included. */
  lemma PutThenRemove<K(!new), V>(d: Dict<K, V>, k: K, v: V)
    requires d.Valid() && k !in d.m
    ensures Remove(Put(d, k, v), k) == d
  {
    var t := Put(d, k, v);
    assert t.keys == d.keys + [k] && t.m == d.m[k := v];
    WithoutSnoc(d.keys, k, k);
    assert Without(t.keys, k) == d.keys;
    assert t.m - {k} == d.m;
  }

  /** Updating an empty dictionary with `p` copies `p` exactly, order included. */
  lemma MergeIntoEmpty<K(!new), V>(p: Dict<K, V>)
    requires p.Valid()
    ensures Merge(Empty(), p) == p
  {
    var e: Dict<K, V> := Empty();
    FreshOfAbsent(p.keys, e.m);
    UnionWithEmpty(p.m);
    SameParts(Merge(e, p), p);
  }

  lemma UnionWithEmpty<K, V>(m: map<K, V>)
    ensures map[] + m == m
  {
  }

  lemma SameParts<K(!new), V>(a: Dict<K, V>, b: Dict<K, V>)
    requires a.keys == [] + b.keys && a.m == map[] + b.m
    requires map[] + b.m == b.m
    ensures a == b
  {
    assert [] + b.keys == b.keys;
  }

  /** Updating twice with the same dictionary is the same as updating once. */
  lemma MergeIdempotent<K(!new), V>(d: Dict<K, V>, p: Dict<K, V>)
    requires d.Valid() && p.Valid()
    ensures Merge(Merge(d, p), p) == Merge(d, p)
  {
    var once := Merge(d, p);
    MergeExistingKeys(once, p);
    UpdateTwice(d.m, p.m);
  }

  lemma UpdateTwice<K, V>(a: map<K, V>, b: map<K, V>)
    ensures (a + b) + b == a + b
  {
  }

  /** `list(d.items())`: the key-value pairs in iteration order. */
  function Items<K(==,!new), V>(d: Dict<K, V>): (r: seq<(K, V)>)
    requires d.Valid()
    ensures |r| == |d.keys|
    ensures forall i :: 0 <= i < |r| ==> r[i].0 == d.keys[i] && r[i].1 == d.m[d.keys[i]]
  {
    seq(|d.keys|, i requires 0 <= i < |d.keys| => (d.keys[i], d.m[d.keys[i]]))
  }

  /** `list(d.values())`: the values in iteration order. */
  function Values<K(==,!new), V>(d: Dict<K, V>): (r: seq<V>)
    requires d.Valid()
    ensures |r| == |d.keys|
    ensures forall i :: 0 <= i < |r| ==> r[i] == d.m[d.keys[i]]
  {
    seq(|d.keys|, i requires 0 <= i < |d.keys| => d.m[d.keys[i]])
  }

  /** Two well-formed dictionaries with the same keys in the same order and the same value at each key are equal. */
  lemma SameEntries<K(!new), V>(a: Dict<K, V>, b: Dict<K, V>)
    requires a.Valid() && b.Valid() && a.keys == b.keys
    requires forall i :: 0 <= i < |a.keys| ==> a.m[a.keys[i]] == b.m[a.keys[i]]
    ensures a == b
  {
    forall k | k in a.m
      ensures a.m[k] == b.m[k]
    {
      var i :| 0 <= i < |a.keys| && a.keys[i] == k;
    }
  }

  /** The number of keys equals the size of the map's domain. */
  lemma LengthIsDomainSize<K(!new), V>(d: Dict<K, V>)
    requires d.Valid()
    ensures |d.keys| == |d.m|
  {
    DistinctCard(d.keys);
    assert (set k | k in d.keys) == d.m.Keys;
  }

  lemma {:induction false} DistinctCard<T>(s: seq<T>)
    requires Distinct(s)
    ensures |set x | x in s| == |s|
  {
    if s != [] {
      DistinctCard(s[1..]);
      assert (set x | x in s) == (set x | x in s[1..]) + {s[0]};
      assert s[0] !in s[1..];
    }
  }
}
