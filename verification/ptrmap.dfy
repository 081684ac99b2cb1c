/** `PtrMap` (src/PtrMap.h): a memoising map from keys to objects. A lookup of an absent key
    allocates a fresh default object and records it; a lookup of a present key returns the object
    recorded before. Objects are modelled by their allocation number: the map records the number
    of each key's object, and `count` is the number of objects allocated so far. */
module PtrMaps {

  datatype PtrMap<K> = PtrMap(ids: map<K, nat>, count: nat)

  /** The empty map, before any allocation. */
  function Empty<K>(): (m: PtrMap<K>)
    ensures Wf(m) && m.ids == map[]
  {
    PtrMap(map[], 0)
  }

  /** Every recorded object was allocated, and no object is recorded under two keys. */
  predicate Wf<K>(m: PtrMap<K>) {
    (forall k | k in m.ids :: m.ids[k] < m.count) &&
    forall k, j | k in m.ids && j in m.ids && k != j :: m.ids[k] != m.ids[j]
  }

  /** Every entry of m is an entry of m' with the same object, and every entry m' adds holds an
      object allocated after those of m. */
  predicate Extends<K>(m: PtrMap<K>, m': PtrMap<K>) {
    m.ids.Keys <= m'.ids.Keys && (forall k | k in m.ids :: m'.ids[k] == m.ids[k]) && m.count <= m'.count &&
    forall k | k in m'.ids && k !in m.ids :: m'.ids[k] >= m.count
  }

  /** `operator[]` (src/PtrMap.h:11-19): the object of `key`, allocating and recording a fresh one
      when the key is absent. */
  function Lookup<K>(m: PtrMap<K>, key: K): (r: (PtrMap<K>, nat))
    requires Wf(m)
    ensures Wf(r.0) && Extends(m, r.0)
    ensures key in r.0.ids && r.0.ids[key] == r.1 && r.1 < r.0.count
    ensures key in m.ids ==> r.0 == m
    ensures key !in m.ids ==> r.0.ids == m.ids[key := r.1] && r.0.count == m.count + 1 && r.1 !in m.ids.Values
  {
    if key in m.ids then (m, m.ids[key])
    else (PtrMap(m.ids[key := m.count], m.count + 1), m.count)
  }

  /** A second lookup of the same key returns the same object and changes nothing. */
  lemma LookupTwice<K>(m: PtrMap<K>, key: K)
    requires Wf(m)
    ensures Lookup(Lookup(m, key).0, key) == (Lookup(m, key).0, Lookup(m, key).1)
  {
  }

  /** Extending is a preorder: later maps keep every earlier entry. */
  lemma ExtendsTrans<K>(m1: PtrMap<K>, m2: PtrMap<K>, m3: PtrMap<K>)
    requires Extends(m1, m2) && Extends(m2, m3)
    ensures Extends(m1, m3)
  {
  }

  /** Distinct keys never share an object, however the lookups are interleaved. */
  lemma LookupDistinct<K>(m: PtrMap<K>, k: K, j: K)
    requires Wf(m) && k != j
    ensures Lookup(Lookup(m, k).0, j).1 != Lookup(m, k).1
  {
  }
}
