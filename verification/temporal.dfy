/** The in-memory key-value store (`TemporalStorage`). */
module Temporal {
  import opened Base
  import opened JsonValues

  /** The contents of a store: each key maps to one JSON value. */
  type Storage = map<string, Json>

  datatype TemporalStorage = TemporalStorage(storage: Storage)

  /** The constructor; an omitted initial storage defaults to the empty object. */
  function New(init: Option<Storage>): (t: TemporalStorage)
    ensures init.None? ==> t.storage.Keys == {}
    ensures init.Some? ==> t.storage == init.value
  {
    match init
    case None => TemporalStorage(map[])
    case Some(s) => TemporalStorage(s)
  }

  /** `append`: inserts `key`, or overwrites its value; every other key keeps its value. */
  function Append(t: TemporalStorage, key: string, value: Json): (r: TemporalStorage)
    ensures r.storage.Keys == t.storage.Keys + {key}
    ensures r.storage[key] == value
    ensures forall k :: k in t.storage && k != key ==> r.storage[k] == t.storage[k]
  {
    TemporalStorage(t.storage[key := value])
  }

  /** `select`: the value stored under `key`, or `None` (JavaScript's `undefined`). */
  function Select(t: TemporalStorage, key: string): (r: Option<Json>)
    ensures r.Some? <==> key in t.storage
    ensures r.Some? ==> r.value == t.storage[key]
  {
    if key in t.storage then Some(t.storage[key]) else None
  }

  /** `remove`: drops `key` if present; the other keys keep their values. */
  function Remove(t: TemporalStorage, key: string): (r: TemporalStorage)
    ensures r.storage.Keys == t.storage.Keys - {key}
    ensures forall k :: k in r.storage ==> r.storage[k] == t.storage[k]
  {
    TemporalStorage(t.storage - {key})
  }

  /** `reset`: replaces the storage with a fresh empty object. */
  function Reset(t: TemporalStorage): (r: TemporalStorage)
    ensures |r.storage| == 0
  {
    TemporalStorage(map[])
  }

  /** `keys` (`Object.keys`): every key of the storage exactly once, in some order. */
  method Keys(t: TemporalStorage) returns (ks: seq<string>)
    ensures forall i :: 0 <= i < |ks| ==> ks[i] in t.storage
    ensures forall k :: k in t.storage ==> k in ks
    ensures forall i, j :: 0 <= i < j < |ks| ==> ks[i] != ks[j]
    ensures |ks| == |t.storage|
  {
    ks := [];
    var rest := t.storage.Keys;
    while rest != {}
      invariant rest <= t.storage.Keys
      invariant forall i :: 0 <= i < |ks| ==> ks[i] in t.storage && ks[i] !in rest
      invariant forall k :: k in t.storage ==> k in rest || k in ks
      invariant forall i, j :: 0 <= i < j < |ks| ==> ks[i] != ks[j]
      invariant |ks| + |rest| == |t.storage|
      decreases |rest|
    {
      var k :| k in rest;
      ks := ks + [k];
      rest := rest - {k};
    }
  }

  /** A store built without an initial storage has no keys. */
  lemma NewIsEmpty(k: string)
    ensures Select(New(None), k) == None
    ensures New(None).storage.Keys == {}
  {
  }

  /** After `append(key, value)`, `select(key)` yields `value` and every other key reads as before. */
  lemma AppendThenSelect(t: TemporalStorage, key: string, value: Json, other: string)
    ensures Select(Append(t, key, value), key) == Some(value)
    ensures other != key ==> Select(Append(t, key, value), other) == Select(t, other)
  {
  }

  /** After `remove(key)`, `select(key)` is absent; removing an absent key changes nothing. */
  lemma RemoveThenSelect(t: TemporalStorage, key: string)
    ensures Select(Remove(t, key), key) == None
    ensures key !in t.storage ==> Remove(t, key) == t
  {
  }

  /** After `reset()` nothing can be selected, and the store is a fresh one. */
  lemma ResetThenSelect(t: TemporalStorage, k: string)
    ensures Select(Reset(t), k) == None
    ensures Reset(t) == New(None)
  {
  }

  /** Appending a key and then removing it restores a store that did not hold the key. */
  lemma AppendThenRemove(t: TemporalStorage, key: string, value: Json)
    requires key !in t.storage
    ensures Remove(Append(t, key, value), key) == t
  {
  }
}
