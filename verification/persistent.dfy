/** The file-backed store (`PersistentStorage`): a temporal store plus a path. */
module Persistent {
  import opened Base
  import opened Temporal
  import opened Files

  datatype PersistentStorage = PersistentStorage(path: Path, store: TemporalStorage)

  /** The file at `p` exists and parses, so `load` takes its content. */
  predicate Loadable(d: Disk, p: Path)
  {
    p in d.files && d.files[p].Serialized?
  }

  /** The storage `load` installs from a loadable file. */
  function FileStorage(d: Disk, p: Path): (s: Storage)
    requires Loadable(d, p)
    ensures Parse(d.files[p]) == Some(s)
  {
    d.files[p].doc
  }

  /** The constructor: a path and an optional initial storage (default: empty). */
  function New(path: Path, init: Option<Storage>): (db: PersistentStorage)
    ensures db.path == path
    ensures init.None? ==> db.store.storage.Keys == {}
    ensures init.Some? ==> db.store.storage == init.value
  {
    PersistentStorage(path, Temporal.New(init))
  }

  /** `save`: writes the serialised storage to the store's path. The store
      itself and every other file are unchanged, and the same store is returned. */
  function Save(db: PersistentStorage, d: Disk): (r: Io<PersistentStorage>)
    ensures r.result.Success? <==> Writable(d, db.path)
    ensures r.result.Success? ==> r.result.value == db
    ensures r.result.Success? ==> r.disk.files.Keys == d.files.Keys + {db.path}
    ensures r.result.Success? ==> Parse(r.disk.files[db.path]) == Some(db.store.storage)
    ensures forall q :: q in d.files && q != db.path ==> q in r.disk.files && r.disk.files[q] == d.files[q]
    ensures r.disk.dirs == d.dirs && r.disk.denied == d.denied
    ensures r.result.Failure? ==> r.disk == d
  {
    var w := WriteText(d, db.path, Stringify(db.store.storage));
    match w.result
    case Success(_) => Io(w.disk, Success(db))
    case Failure(e) => Io(w.disk, Failure(e))
  }

  /** `load`: a file that exists and parses replaces the storage and the disk
      is untouched; otherwise the current storage is kept and saved, and a
      failure of that save is the failure of `load`. */
  function Load(db: PersistentStorage, d: Disk): (r: Io<PersistentStorage>)
    ensures Loadable(d, db.path) ==> r.disk == d && r.result.Success?
    ensures Loadable(d, db.path) ==> r.result.value.store.storage == FileStorage(d, db.path)
    ensures !Loadable(d, db.path) ==> (r.result.Success? <==> Writable(d, db.path))
    ensures r.result.Success? ==> r.result.value.path == db.path
    ensures r.result.Success? ==> db.path in r.disk.files
    ensures !Loadable(d, db.path) && r.result.Success? ==>
              r.result.value == db && Parse(r.disk.files[db.path]) == Some(db.store.storage)
    ensures r.result.Success? ==> Parse(r.disk.files[db.path]) == Some(r.result.value.store.storage)
    ensures forall q :: q in d.files && q != db.path ==> q in r.disk.files && r.disk.files[q] == d.files[q]
    ensures r.disk.files.Keys <= d.files.Keys + {db.path}
    ensures r.disk.dirs == d.dirs && r.disk.denied == d.denied
    ensures r.result.Failure? ==> r.disk == d
  {
    match ReadText(d, db.path)
    case Success(text) =>
      (match Parse(text)
       case Some(s) => Io(d, Success(db.(store := TemporalStorage(s))))
       case None => Save(db, d))
    case Failure(_) => Save(db, d)
  }

  /** `delete`: removes the store's file, leaving the storage and every other
      file unchanged; fails when there is no file at the path. */
  function Delete(db: PersistentStorage, d: Disk): (r: Io<PersistentStorage>)
    ensures r.result.Success? <==> db.path in d.files && db.path !in d.denied
    ensures r.result.Success? ==> r.result.value == db
    ensures r.result.Success? ==> r.disk.files.Keys == d.files.Keys - {db.path}
    ensures r.disk.files.Keys <= d.files.Keys
    ensures forall q :: q in r.disk.files ==> r.disk.files[q] == d.files[q]
    ensures r.disk.dirs == d.dirs && r.disk.denied == d.denied
    ensures r.result.Failure? ==> r.disk == d
    ensures db.path !in d.files ==> r.result == Failure(NoSuchFile)
  {
    var rm := RemoveFile(d, db.path);
    match rm.result
    case Success(_) => Io(rm.disk, Success(db))
    case Failure(e) => Io(rm.disk, Failure(e))
  }

  /** `setPath`: points the store at another file; the storage is untouched. */
  function SetPath(db: PersistentStorage, path: Path): (r: PersistentStorage)
    ensures r.store == db.store
    ensures GetPath(r) == path
  {
    db.(path := path)
  }

  /** `getPath`. */
  function GetPath(db: PersistentStorage): (p: Path)
  {
    db.path
  }

  /** Round trip: saving a store and loading a fresh instance at the same
      path yields the saved storage. */
  lemma SaveThenLoad(s: Storage, path: Path, d: Disk)
    requires Writable(d, path)
    ensures var saved := Save(New(path, Some(s)), d);
            Load(New(path, None), saved.disk).result == Success(New(path, Some(s)))
  {
  }

  /** A fresh store whose file is missing or unparseable stays empty and
      leaves a file holding the empty object. */
  lemma LoadFresh(path: Path, d: Disk)
    requires !Loadable(d, path) && Writable(d, path)
    ensures var r := Load(New(path, None), d);
            r.result.Success? && r.result.value.store.storage == map[] &&
            r.disk.files[path] == Stringify(map[])
  {
  }
}
