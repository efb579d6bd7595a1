/** `std::multimap` as the client list uses it: for each key its entries, oldest first. */
module MultiMap {
  import opened Common

  type MultiMap<V(==)> = map<nat, seq<V>>

  /** The entries `equal_range` gives. */
  function EqualRange<V>(m: MultiMap<V>, key: nat): seq<V> {
    if key in m then m[key] else []
  }

  function Insert<V>(m: MultiMap<V>, key: nat, v: V): MultiMap<V> {
    m[key := EqualRange(m, key) + [v]]
  }

  /** Without the first occurrence of `v`. */
  function Without<V(==)>(s: seq<V>, v: V): seq<V> {
    if s == [] then [] else if s[0] == v then s[1..] else [s[0]] + Without(s[1..], v)
  }

  function Erase<V(==)>(m: MultiMap<V>, key: nat, v: V): MultiMap<V> {
    if key !in m then m
    else if Without(m[key], v) == [] then map k | k in m && k != key :: m[k]
    else m[key := Without(m[key], v)]
  }

  lemma {:induction false} WithoutMember<V>(s: seq<V>, v: V, w: V)
    requires NoDuplicates(s)
    ensures w in Without(s, v) <==> w in s && w != v
  {
    if s != [] {
      NoneLater(s);
      assert w in s <==> w == s[0] || w in s[1..];
      if s[0] != v {
        WithoutMember(s[1..], v, w);
      }
    }
  }

  lemma NoneLater<V>(s: seq<V>)
    requires s != [] && NoDuplicates(s)
    ensures s[0] !in s[1..] && NoDuplicates(s[1..])
  {}

  lemma {:induction false} WithoutNoDuplicates<V>(s: seq<V>, v: V)
    requires NoDuplicates(s)
    ensures NoDuplicates(Without(s, v))
  {
    if s != [] && s[0] != v {
      NoneLater(s);
      WithoutNoDuplicates(s[1..], v);
      WithoutMember(s[1..], v, s[0]);
    } else if s != [] {
      NoneLater(s);
    }
  }

  /** The multimap files every value of `keys` once, under its key, and holds nothing else. */
  ghost predicate Indexes<V>(m: MultiMap<V>, keys: map<V, nat>) {
    && (forall k {:trigger m[k]} | k in m :: m[k] != [] && NoDuplicates(m[k]) && Files(keys, k, m[k]))
    && (forall v {:trigger Present(m, keys[v], v)} | v in keys :: Present(m, keys[v], v))
  }

  ghost predicate Present<V>(m: MultiMap<V>, k: nat, v: V) {
    v in EqualRange(m, k)
  }

  ghost predicate Files<V>(keys: map<V, nat>, k: nat, bucket: seq<V>) {
    forall v | v in bucket :: v in keys && keys[v] == k
  }

  /** So a key's range is exactly the values that have that key. */
  lemma RangeMembers<V>(m: MultiMap<V>, keys: map<V, nat>, k: nat, v: V)
    requires Indexes(m, keys)
    ensures v in EqualRange(m, k) <==> v in keys && keys[v] == k
  {
    assert v in keys ==> Present(m, keys[v], v);
    if k in m {
      assert Files(keys, k, m[k]);
    }
  }

  lemma InsertIndexes<V>(m: MultiMap<V>, keys: map<V, nat>, k: nat, v: V)
    requires Indexes(m, keys) && v !in keys
    ensures Indexes(Insert(m, k, v), keys[v := k])
  {
    var after := Insert(m, k, v);
    forall j | j in after
      ensures after[j] != [] && NoDuplicates(after[j]) && Files(keys[v := k], j, after[j])
    {
      RangeMembers(m, keys, j, v);
      if j in m {
        assert NoDuplicates(m[j]) && Files(keys, j, m[j]);
      }
    }
    forall w | w in keys ensures Present(after, keys[w], w) {
      assert Present(m, keys[w], w);
    }
  }

  lemma EraseIndexes<V>(m: MultiMap<V>, keys: map<V, nat>, v: V)
    requires Indexes(m, keys) && v in keys
    ensures Indexes(Erase(m, keys[v], v), keys - {v})
  {
    var k, after, rest := keys[v], Erase(m, keys[v], v), keys - {v};
    assert Present(m, k, v);
    WithoutNoDuplicates(m[k], v);
    forall j | j in after
      ensures after[j] != [] && NoDuplicates(after[j]) && Files(rest, j, after[j])
    {
      assert Files(keys, j, m[j]) && NoDuplicates(m[j]);
      RangeMembers(m, keys, j, v);
      forall w | w in after[j] ensures w in rest && rest[w] == j {
        WithoutMember(m[k], v, w);
        assert after[j] == if j == k then Without(m[k], v) else m[j];
      }
    }
    forall w | w in rest ensures Present(after, rest[w], w) {
      assert Present(m, keys[w], w);
      WithoutMember(m[k], v, w);
    }
  }

  /** An empty multimap indexes nothing. */
  lemma EmptyIndexesNone<V>(keys: map<V, nat>)
    requires Indexes(map[], keys)
    ensures keys == map[]
  {
    assert forall v :: v in keys ==> Present(map[], keys[v], v);
    assert keys.Keys == {};
  }
}
