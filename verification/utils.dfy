/** Helpers over stores: conversion between the two kinds, saving a temporal
    store, merging several stores, and the JSON shape tests. */
module Utils {
  import opened Base
  import opened JsonValues
  import opened Temporal
  import opened Files
  import Persistent

  /** `parsePersistentToTemporal`: a temporal store over the same storage. */
  function ParsePersistentToTemporal(db: Persistent.PersistentStorage): (t: TemporalStorage)
    ensures t.storage == db.store.storage
    ensures forall k :: Select(t, k) == Select(db.store, k)
  {
    TemporalStorage(db.store.storage)
  }

  /** `saveTemporalStorage`: writes the serialised storage of `t` to `path`. */
  function SaveTemporalStorage(path: Path, t: TemporalStorage, d: Disk): (r: Io<()>)
    ensures r.result.Success? <==> Writable(d, path)
    ensures r.result.Success? ==> r.disk.files.Keys == d.files.Keys + {path}
    ensures r.result.Success? ==> Parse(r.disk.files[path]) == Some(t.storage)
    ensures r.disk.dirs == d.dirs && r.disk.denied == d.denied
    ensures forall q :: q in d.files && q != path ==> q in r.disk.files && r.disk.files[q] == d.files[q]
    ensures r.result.Failure? ==> r.disk == d
  {
    WriteText(d, path, Stringify(t.storage))
  }

  /** Saving a temporal store writes exactly what `save` of a persistent store
      with the same path and storage writes. */
  lemma SaveTemporalMatchesSave(t: TemporalStorage, db: Persistent.PersistentStorage, d: Disk)
    requires db.store.storage == t.storage
    ensures SaveTemporalStorage(db.path, t, d).disk == Persistent.Save(db, d).disk
    ensures SaveTemporalStorage(db.path, t, d).result.Success? == Persistent.Save(db, d).result.Success?
  {
  }

  /** Some store in `dbs` holds `k`. */
  ghost predicate HeldBySome(dbs: seq<TemporalStorage>, k: string)
  {
    exists i :: 0 <= i < |dbs| && k in dbs[i].storage
  }

  /** `dbs[i]` is the last store in `dbs` that holds `k`. */
  ghost predicate LastHolder(dbs: seq<TemporalStorage>, k: string, i: int)
  {
    0 <= i < |dbs| && k in dbs[i].storage &&
    forall j :: i < j < |dbs| ==> k !in dbs[j].storage
  }

  /** The reference merge: the stores folded left to right, so that a later
      store's value for a key overrides an earlier one's. */
  function MergeAll(dbs: seq<TemporalStorage>): (m: Storage)
    decreases |dbs|
  {
    if |dbs| == 0 then map[] else MergeAll(dbs[..|dbs| - 1]) + dbs[|dbs| - 1].storage
  }

  /** The merged key set is the union of the stores' key sets. */
  lemma {:induction false} MergeAllKeys(dbs: seq<TemporalStorage>, k: string)
    ensures k in MergeAll(dbs) <==> HeldBySome(dbs, k)
    decreases |dbs|
  {
    if |dbs| > 0 {
      var init := dbs[..|dbs| - 1];
      MergeAllKeys(init, k);
      if HeldBySome(dbs, k) && k !in dbs[|dbs| - 1].storage {
        var i :| 0 <= i < |dbs| && k in dbs[i].storage;
        assert init[i] == dbs[i];
      }
      if HeldBySome(init, k) {
        var i :| 0 <= i < |init| && k in init[i].storage;
        assert dbs[i] == init[i];
      }
    }
  }

  /** A key held by several stores takes its value from the last of them. */
  lemma {:induction false} MergeAllLast(dbs: seq<TemporalStorage>, k: string, i: int)
    requires LastHolder(dbs, k, i)
    ensures k in MergeAll(dbs) && MergeAll(dbs)[k] == dbs[i].storage[k]
    decreases |dbs|
  {
    if i < |dbs| - 1 {
      var init := dbs[..|dbs| - 1];
      assert LastHolder(init, k, i);
      MergeAllLast(init, k, i);
    }
  }

  /** The inner loop of `getAllData`: copies every key of `t`, with its
      selected value, into `source`. */
  method CopyKeys(source: Storage, t: TemporalStorage) returns (r: Storage)
    ensures r == source + t.storage
  {
    var keys := Keys(t);
    r := source;
    ghost var copied: set<string> := {};
    for j := 0 to |keys|
      invariant copied <= t.storage.Keys
      invariant forall i :: 0 <= i < j ==> keys[i] in copied
      invariant r.Keys == source.Keys + copied
      invariant forall k :: k in r ==> r[k] == if k in copied then t.storage[k] else source[k]
    {
      var v := Select(t, keys[j]);
      r := r[keys[j] := v.value];
      copied := copied + {keys[j]};
    }
  }

  /** `getAllData`: walks the stores in order and copies every key's value
      into one fresh object; no input store is changed. */
  method GetAllData(dbs: seq<TemporalStorage>) returns (source: Storage)
    ensures source == MergeAll(dbs)
  {
    source := map[];
    for i := 0 to |dbs|
      invariant source == MergeAll(dbs[..i])
    {
      source := CopyKeys(source, dbs[i]);
      assert dbs[..i + 1][..i] == dbs[..i];
    }
    assert dbs[..|dbs|] == dbs;
  }

  /** Merging no stores gives the empty object; merging one gives its storage. */
  lemma MergeAllSmall(t: TemporalStorage)
    ensures MergeAll([]) == map[]
    ensures MergeAll([t]) == t.storage
  {
    assert [t][..0] == [];
  }

  /** `value instanceof Object`: arrays and objects, not `null` or primitives. */
  predicate InstanceOfObject(v: Json)
  {
    v.JArray? || v.JObject?
  }

  /** `"length" in value` for a value that is an `Object` instance. */
  predicate HasLength(v: Json)
    requires InstanceOfObject(v)
  {
    v.JArray? || "length" in v.fields
  }

  /** `isArray`. */
  predicate IsArray(v: Json)
  {
    v.JArray?
  }

  /** `isObject`: an `Object` instance without a `length` property. */
  predicate IsObject(v: Json)
  {
    InstanceOfObject(v) && !HasLength(v)
  }

  /** `isObject` holds exactly for JSON objects without a `length` member, so
      it is false for arrays, `null` and primitives, and never agrees with `isArray`. */
  lemma IsObjectExactly(v: Json)
    ensures IsObject(v) <==> v.JObject? && "length" !in v.fields
    ensures IsArray(v) ==> !IsObject(v)
  {
  }
}
