/** The registry of named, credential-scoped databases and its operations,
    each taking the credential, the name and the payload directly. */
module Registry {
  import opened Base
  import opened Temporal
  import opened Files
  import opened Persistent
  import opened DbName

  /** One registered database (`DataBaseAccessor`). */
  datatype Entry = Entry(body: PersistentStorage, name: string, pass: string)

  /** The registry list (`dbStorage`) together with the disk it lives on. */
  datatype Server = Server(entries: seq<Entry>, disk: Disk)

  /** What an operation answers: a confirmation, a store's content, a
      not-found answer, or an I/O error thrown out of the handler. */
  datatype Reply =
    | Message(text: string)
    | Snapshot(content: Storage)
    | NotFound(name: string)
    | Failed(error: IoError)

  datatype Outcome = Outcome(server: Server, reply: Reply)

  /** The lookup predicate of every operation: same name and same credential. */
  predicate Matches(e: Entry, pass: string, name: string)
  {
    e.name == name && e.pass == pass
  }

  function FindFrom(entries: seq<Entry>, pass: string, name: string, from: nat): (i: int)
    requires from <= |entries|
    ensures i == -1 || from <= i < |entries|
    ensures i >= 0 ==> Matches(entries[i], pass, name)
    ensures forall j :: from <= j < |entries| && (i < 0 || j < i) ==> !Matches(entries[j], pass, name)
    decreases |entries| - from
  {
    if from == |entries| then -1
    else if Matches(entries[from], pass, name) then from
    else FindFrom(entries, pass, name, from + 1)
  }

  /** `findIndex`: the first matching entry, or -1 when none matches. */
  function FindIndex(entries: seq<Entry>, pass: string, name: string): (i: int)
    ensures -1 <= i < |entries|
    ensures i >= 0 ==> Matches(entries[i], pass, name)
    ensures forall j :: 0 <= j < |entries| && (i < 0 || j < i) ==> !Matches(entries[j], pass, name)
  {
    FindFrom(entries, pass, name, 0)
  }

  /** The storage a fresh store at `p` holds after `load`. */
  function Restored(d: Disk, p: Path): (s: Storage)
  {
    if Loadable(d, p) then FileStorage(d, p) else map[]
  }

  /** `createDataBase`: loads a fresh store at the formatted path and pushes
      a new entry. Existing entries with the same name and credential are not
      looked at. A failing load (its save) throws before the push. */
  function Create(s: Server, pass: string, name: string): (o: Outcome)
    ensures var path := FormatDbName(pass, name);
            o.reply.Message? <==> Loadable(s.disk, path) || Writable(s.disk, path)
    ensures o.reply.Message? || o.reply.Failed?
    ensures o.reply.Message? ==> o.reply.text == "DB " + name + " is created"
    ensures o.reply.Message? ==> |o.server.entries| == |s.entries| + 1
    ensures o.reply.Message? ==> o.server.entries[..|s.entries|] == s.entries
    ensures o.reply.Message? ==>
              var e := o.server.entries[|s.entries|];
              var path := FormatDbName(pass, name);
              && e.name == name && e.pass == pass && e.body.path == path
              && e.body.store.storage == Restored(s.disk, path)
              && path in o.server.disk.files
              && Parse(o.server.disk.files[path]) == Some(e.body.store.storage)
    ensures forall q :: q in s.disk.files && q != FormatDbName(pass, name) ==>
              q in o.server.disk.files && o.server.disk.files[q] == s.disk.files[q]
    ensures o.server.disk.files.Keys <= s.disk.files.Keys + {FormatDbName(pass, name)}
    ensures o.server.disk.dirs == s.disk.dirs && o.server.disk.denied == s.disk.denied
    ensures o.reply.Failed? ==> o.server == s
  {
    var io := Load(Persistent.New(FormatDbName(pass, name), None), s.disk);
    match io.result
    case Failure(e) => Outcome(s.(disk := io.disk), Failed(e))
    case Success(db) =>
      Outcome(Server(s.entries + [Entry(db, name, pass)], io.disk), Message("DB " + name + " is created"))
  }

  /** `deleteDataBase`: removes the first matching entry's file and then the
      entry itself; when the removal throws, the entry stays. */
  function DeleteDb(s: Server, pass: string, name: string): (o: Outcome)
    ensures FindIndex(s.entries, pass, name) < 0 ==> o == Outcome(s, NotFound(name))
    ensures o.reply.NotFound? || o.reply.Failed? || o.reply == Message("DB " + name + " is deleted")
    ensures var i := FindIndex(s.entries, pass, name);
            i >= 0 ==>
              var path := s.entries[i].body.path;
              && (o.reply.Message? <==> path in s.disk.files && path !in s.disk.denied)
              && (o.reply.Message? ==> o.server.entries == s.entries[..i] + s.entries[i + 1..])
              && (o.reply.Message? ==> o.server.disk.files.Keys == s.disk.files.Keys - {path})
    ensures forall q :: q in o.server.disk.files ==> q in s.disk.files && o.server.disk.files[q] == s.disk.files[q]
    ensures o.server.disk.dirs == s.disk.dirs && o.server.disk.denied == s.disk.denied
    ensures o.reply.Failed? ==> o.server == s
  {
    var i := FindIndex(s.entries, pass, name);
    if i < 0 then Outcome(s, NotFound(name))
    else
      var io := Persistent.Delete(s.entries[i].body, s.disk);
      match io.result
      case Failure(e) => Outcome(s.(disk := io.disk), Failed(e))
      case Success(_) =>
        Outcome(Server(s.entries[..i] + s.entries[i + 1..], io.disk), Message("DB " + name + " is deleted"))
  }

  /** `updateDataBase`: saves a new store holding exactly the payload at the
      formatted path, then makes it the first matching entry's store. */
  function UpdateDb(s: Server, pass: string, name: string, payload: Storage): (o: Outcome)
    ensures FindIndex(s.entries, pass, name) < 0 ==> o == Outcome(s, NotFound(name))
    ensures o.reply.NotFound? || o.reply.Failed? || o.reply == Message("DB " + name + " is updated")
    ensures var i := FindIndex(s.entries, pass, name);
            var path := FormatDbName(pass, name);
            i >= 0 ==>
              && (o.reply.Message? <==> Writable(s.disk, path))
              && (o.reply.Message? ==> |o.server.entries| == |s.entries|)
              && (o.reply.Message? ==> forall j :: 0 <= j < |s.entries| && j != i ==> o.server.entries[j] == s.entries[j])
              && (o.reply.Message? ==> o.server.entries[i].name == name && o.server.entries[i].pass == pass)
              && (o.reply.Message? ==> o.server.entries[i].body.path == path)
              && (o.reply.Message? ==> o.server.entries[i].body.store.storage == payload)
              && (o.reply.Message? ==> path in o.server.disk.files && Parse(o.server.disk.files[path]) == Some(payload))
    ensures forall q :: q in s.disk.files && q != FormatDbName(pass, name) ==>
              q in o.server.disk.files && o.server.disk.files[q] == s.disk.files[q]
    ensures o.server.disk.files.Keys <= s.disk.files.Keys + {FormatDbName(pass, name)}
    ensures o.server.disk.dirs == s.disk.dirs && o.server.disk.denied == s.disk.denied
    ensures o.reply.Failed? ==> o.server == s
  {
    var i := FindIndex(s.entries, pass, name);
    if i < 0 then Outcome(s, NotFound(name))
    else
      var io := Save(Persistent.New(FormatDbName(pass, name), Some(payload)), s.disk);
      match io.result
      case Failure(e) => Outcome(s.(disk := io.disk), Failed(e))
      case Success(db) =>
        Outcome(Server(s.entries[i := s.entries[i].(body := db)], io.disk), Message("DB " + name + " is updated"))
  }

  /** `selectDataBase`: the first matching entry's whole storage; no state changes. */
  function SelectDb(s: Server, pass: string, name: string): (o: Outcome)
    ensures o.server == s
    ensures o.reply.Snapshot? <==> exists j :: 0 <= j < |s.entries| && Matches(s.entries[j], pass, name)
    ensures o.reply.Snapshot? ==>
              var i := FindIndex(s.entries, pass, name);
              0 <= i && o.reply.content == s.entries[i].body.store.storage
    ensures !o.reply.Snapshot? ==> o.reply == NotFound(name)
  {
    var i := FindIndex(s.entries, pass, name);
    if i < 0 then Outcome(s, NotFound(name))
    else Outcome(s, Snapshot(s.entries[i].body.store.storage))
  }

  /** `s` with the payload's values for the keys in `ks` appended one after another. */
  function Overlay(s: Storage, payload: Storage, ks: seq<string>): (r: Storage)
    requires forall k :: k in ks ==> k in payload
    decreases |ks|
  {
    if |ks| == 0 then s else Overlay(s[ks[0] := payload[ks[0]]], payload, ks[1..])
  }

  /** A key of the overlay comes from the payload when listed, else from `s`. */
  lemma {:induction false} OverlayAt(s: Storage, payload: Storage, ks: seq<string>, k: string)
    requires forall x :: x in ks ==> x in payload
    ensures k in Overlay(s, payload, ks) <==> k in s || k in ks
    ensures k in ks ==> Overlay(s, payload, ks)[k] == payload[k]
    ensures k !in ks && k in s ==> Overlay(s, payload, ks)[k] == s[k]
    decreases |ks|
  {
    if |ks| > 0 {
      OverlayAt(s[ks[0] := payload[ks[0]]], payload, ks[1..], k);
      assert ks == [ks[0]] + ks[1..];
    }
  }

  lemma OverlayCons(s: Storage, payload: Storage, k: string, ks: seq<string>)
    requires k in payload && forall x :: x in ks ==> x in payload
    ensures Overlay(s[k := payload[k]], payload, ks) == Overlay(s, payload, [k] + ks)
  {
    assert ([k] + ks)[1..] == ks;
  }

  /** Laying over every key of the payload is the payload-overriding merge. */
  lemma OverlayAll(s: Storage, payload: Storage, ks: seq<string>)
    requires forall k :: k in payload <==> k in ks
    ensures Overlay(s, payload, ks) == s + payload
  {
    forall k ensures k in Overlay(s, payload, ks) <==> k in s + payload {
      OverlayAt(s, payload, ks, k);
    }
    forall k | k in s + payload ensures Overlay(s, payload, ks)[k] == (s + payload)[k] {
      OverlayAt(s, payload, ks, k);
    }
  }

  /** The state of the per-key loop of `appendDataBase`: the store, the disk,
      the file contents written so far, and the error that stopped the loop. */
  datatype Batch = Batch(body: PersistentStorage, disk: Disk, writes: seq<FileContent>, error: Option<IoError>)

  /** The loop of `appendDataBase`: appends each key in `order` and saves
      after every key. A throwing save ends the loop with the key it failed
      on already in memory and nothing written. */
  function AppendEach(db: PersistentStorage, d: Disk, payload: Storage, order: seq<string>): (b: Batch)
    requires forall k :: k in order ==> k in payload
    ensures b.body.path == db.path
    ensures b.disk.dirs == d.dirs && b.disk.denied == d.denied
    ensures b.error.None? <==> |order| == 0 || Writable(d, db.path)
    ensures b.error.None? ==> |b.writes| == |order|
    ensures b.error.Some? ==> |b.writes| == 0 && b.disk == d
    ensures b.error.Some? ==> b.body.store.storage == db.store.storage[order[0] := payload[order[0]]]
    decreases |order|
  {
    if |order| == 0 then Batch(db, d, [], None)
    else
      var db1 := db.(store := Temporal.Append(db.store, order[0], payload[order[0]]));
      var io := Save(db1, d);
      match io.result
      case Failure(e) => Batch(db1, io.disk, [], Some(e))
      case Success(_) =>
        var rest := AppendEach(db1, io.disk, payload, order[1..]);
        Batch(rest.body, rest.disk, [Stringify(db1.store.storage)] + rest.writes, rest.error)
  }

  /** When the loop completes, the store holds every payload key laid over it. */
  lemma {:induction false} AppendEachStorage(db: PersistentStorage, d: Disk, payload: Storage, order: seq<string>)
    requires forall k :: k in order ==> k in payload
    ensures var b := AppendEach(db, d, payload, order);
            b.error.None? ==> b.body.store.storage == Overlay(db.store.storage, payload, order)
    decreases |order|
  {
    if |order| > 0 && Writable(d, db.path) {
      var db1 := db.(store := Temporal.Append(db.store, order[0], payload[order[0]]));
      AppendEachStorage(db1, Save(db1, d).disk, payload, order[1..]);
      OverlayCons(db.store.storage, payload, order[0], order[1..]);
      assert [order[0]] + order[1..] == order;
    }
  }

  /** The j-th save writes the store as it stands after the first j+1 keys:
      after each save the file equals the in-memory store. */
  lemma {:induction false} AppendEachWrites(db: PersistentStorage, d: Disk, payload: Storage, order: seq<string>, j: nat)
    requires forall k :: k in order ==> k in payload
    requires j < |AppendEach(db, d, payload, order).writes|
    ensures j < |order|
    ensures AppendEach(db, d, payload, order).writes[j] == Stringify(Overlay(db.store.storage, payload, order[..j + 1]))
    decreases |order|
  {
    assert |order| > 0 && Writable(d, db.path);
    var db1 := db.(store := Temporal.Append(db.store, order[0], payload[order[0]]));
    var io := Save(db1, d);
    assert io.result.Success?;
    var d1 := io.disk;
    var rest := AppendEach(db1, d1, payload, order[1..]);
    assert AppendEach(db, d, payload, order) == Batch(rest.body, rest.disk, [Stringify(db1.store.storage)] + rest.writes, rest.error);
    if j == 0 {
      assert order[..1] == [order[0]] + [];
      OverlayCons(db.store.storage, payload, order[0], []);
    } else {
      AppendEachWrites(db1, d1, payload, order[1..], j - 1);
      OverlayCons(db.store.storage, payload, order[0], order[1..][..j]);
      assert [order[0]] + order[1..][..j] == order[..j + 1];
    }
  }

  /** The disk after the loop: untouched if nothing was written, otherwise the
      store's file holds the last write and every other file is unchanged. */
  lemma {:induction false} AppendEachDisk(db: PersistentStorage, d: Disk, payload: Storage, order: seq<string>)
    requires forall k :: k in order ==> k in payload
    ensures var b := AppendEach(db, d, payload, order);
            && (|b.writes| == 0 ==> b.disk == d)
            && (|b.writes| > 0 ==>
                  && b.disk.files.Keys == d.files.Keys + {db.path}
                  && b.disk.files[db.path] == b.writes[|b.writes| - 1]
                  && forall q :: q in d.files && q != db.path ==> b.disk.files[q] == d.files[q])
    decreases |order|
  {
    if |order| > 0 && Writable(d, db.path) {
      var db1 := db.(store := Temporal.Append(db.store, order[0], payload[order[0]]));
      AppendEachDisk(db1, Save(db1, d).disk, payload, order[1..]);
    }
  }

  /** A completed loop leaves the file equal to the in-memory store. */
  lemma AppendEachResult(db: PersistentStorage, d: Disk, payload: Storage, order: seq<string>)
    requires forall k :: k in order ==> k in payload
    ensures var b := AppendEach(db, d, payload, order);
            && (b.error.None? ==> b.body.store.storage == Overlay(db.store.storage, payload, order))
            && (b.error.None? && |order| > 0 ==>
                  db.path in b.disk.files && b.disk.files[db.path] == Stringify(b.body.store.storage))
            && (|b.writes| == 0 ==> b.disk == d)
            && (forall q :: q in d.files && q != db.path ==> q in b.disk.files && b.disk.files[q] == d.files[q])
            && b.disk.files.Keys <= d.files.Keys + {db.path}
  {
    var b := AppendEach(db, d, payload, order);
    AppendEachStorage(db, d, payload, order);
    AppendEachDisk(db, d, payload, order);
    if |b.writes| > 0 {
      AppendEachWrites(db, d, payload, order, |b.writes| - 1);
      if b.error.None? {
        assert order[..|b.writes|] == order;
      }
    }
  }

  /** `order` lists every key of `payload` exactly once (the `for...in` order). */
  ghost predicate Enumerates(order: seq<string>, payload: Storage)
  {
    && (forall k :: k in payload <==> k in order)
    && (forall i, j :: 0 <= i < j < |order| ==> order[i] != order[j])
  }

  /** `appendDataBase`: merges the payload into the first matching entry's
      store, payload values overriding, with one save per key. A failing save
      leaves the key it failed on in memory but not on disk. */
  function AppendDb(s: Server, pass: string, name: string, payload: Storage, order: seq<string>): (o: Outcome)
    requires Enumerates(order, payload)
    ensures FindIndex(s.entries, pass, name) < 0 ==> o == Outcome(s, NotFound(name))
    ensures o.reply.NotFound? || o.reply.Failed? || o.reply == Message("DB " + name + " is update content")
    ensures var i := FindIndex(s.entries, pass, name);
            i >= 0 ==>
              var e := s.entries[i];
              && |o.server.entries| == |s.entries|
              && (forall j :: 0 <= j < |s.entries| && j != i ==> o.server.entries[j] == s.entries[j])
              && o.server.entries[i].name == e.name && o.server.entries[i].pass == e.pass
              && o.server.entries[i].body.path == e.body.path
              && (o.reply.Message? <==> |payload| == 0 || Writable(s.disk, e.body.path))
              && (o.reply.Message? ==> o.server.entries[i].body.store.storage == e.body.store.storage + payload)
              && (o.reply.Message? && |payload| > 0 ==>
                    e.body.path in o.server.disk.files &&
                    Parse(o.server.disk.files[e.body.path]) == Some(e.body.store.storage + payload))
              && (o.reply.Failed? ==> o.server.disk == s.disk)
              && (|payload| == 0 ==> o.server.disk == s.disk && o.server.entries == s.entries)
              && (o.reply.Failed? ==>
                    o.server.entries[i].body.store.storage == e.body.store.storage[order[0] := payload[order[0]]])
              && (forall q :: q in s.disk.files && q != e.body.path ==>
                    q in o.server.disk.files && o.server.disk.files[q] == s.disk.files[q])
              && o.server.disk.files.Keys <= s.disk.files.Keys + {e.body.path}
    ensures o.server.disk.dirs == s.disk.dirs && o.server.disk.denied == s.disk.denied
  {
    var i := FindIndex(s.entries, pass, name);
    if i < 0 then Outcome(s, NotFound(name))
    else
      var b := AppendEach(s.entries[i].body, s.disk, payload, order);
      AppendEachResult(s.entries[i].body, s.disk, payload, order);
      OverlayAll(s.entries[i].body.store.storage, payload, order);
      EnumeratesLength(order, payload);
      var server := Server(s.entries[i := s.entries[i].(body := b.body)], b.disk);
      match b.error
      case Some(e) => Outcome(server, Failed(e))
      case None => Outcome(server, Message("DB " + name + " is update content"))
  }

  /** An enumeration of the payload's keys is as long as the payload. */
  lemma EnumeratesLength(order: seq<string>, payload: Storage)
    requires Enumerates(order, payload)
    ensures |order| == |payload|
  {
    assert (set k | k in order) == payload.Keys;
    DistinctCard(order);
  }

  /** A duplicate-free sequence has as many elements as its set. */
  lemma {:induction false} DistinctCard(xs: seq<string>)
    requires forall i, j :: 0 <= i < j < |xs| ==> xs[i] != xs[j]
    ensures |set k | k in xs| == |xs|
    decreases |xs|
  {
    if |xs| > 0 {
      var t := xs[1..];
      DistinctCard(t);
      assert (set k | k in xs) == (set k | k in t) + {xs[0]};
      assert xs[0] !in t;
    }
  }

  /** The store's file exists and holds exactly its storage. */
  predicate Synced(d: Disk, db: PersistentStorage)
  {
    db.path in d.files && Parse(d.files[db.path]) == Some(db.store.storage)
  }

  /** The registry agrees with the disk: each entry's file is the formatted
      name of its credential and name, no two entries share a file, and every
      entry's file holds that entry's storage. */
  ghost predicate Consistent(s: Server)
  {
    && (forall i :: 0 <= i < |s.entries| ==> s.entries[i].body.path == FormatDbName(s.entries[i].pass, s.entries[i].name))
    && (forall i :: 0 <= i < |s.entries| ==> Synced(s.disk, s.entries[i].body))
    && (forall i, j :: 0 <= i < j < |s.entries| ==> s.entries[i].body.path != s.entries[j].body.path)
  }

  /** The entry `loadDBDir` builds for the directory entry `fileName`: the
      store that loading a fresh store at that file yields, under the
      credential and name the source's parse reads from the file name. */
  function LoadedEntry(d: Disk, fileName: string): (e: Entry)
    ensures e.body.path == Path(DbDir, fileName)
    ensures var io := Load(Persistent.New(e.body.path, None), d);
            io.result.Success? ==> io.result.value == e.body
    ensures e.body.store.storage == Restored(d, e.body.path)
    ensures DbIdentity(e.pass, e.name) == ParseAsWritten(fileName)
    ensures '-' !in e.pass
  {
    var path := Path(DbDir, fileName);
    var id := ParseAsWritten(fileName);
    Entry(PersistentStorage(path, TemporalStorage(Restored(d, path))), id.name, id.pass)
  }

  /** The entry a corrected loader would build: the same store, under the
      identity the corrected parse reads, so that a conforming file is the
      formatted name of its entry. */
  function CorrectedEntry(d: Disk, fileName: string): (e: Entry)
    ensures e.body == LoadedEntry(d, fileName).body
    ensures DbIdentity(e.pass, e.name) == ParseDbFileName(fileName)
    ensures Conforming(fileName) ==> FormatDbName(e.pass, e.name) == e.body.path
  {
    var id := ParseDbFileName(fileName);
    if Conforming(fileName) then ParseThenFormat(fileName); LoadedEntry(d, fileName).(name := id.name, pass := id.pass)
    else LoadedEntry(d, fileName).(name := id.name, pass := id.pass)
  }

  /** `listing` names every file of the database directory exactly once, in
      whatever order the directory is read. */
  ghost predicate ListsDbDir(d: Disk, listing: seq<string>)
  {
    && (forall i :: 0 <= i < |listing| ==> Path(DbDir, listing[i]) in d.files)
    && (forall p :: p in d.files && p.dir == DbDir ==> p.base in listing)
    && (forall i, j :: 0 <= i < j < |listing| ==> listing[i] != listing[j])
  }

  /** Loading the file can go through: it parses, or it may be overwritten. */
  predicate Recoverable(d: Disk, p: Path)
  {
    Loadable(d, p) || p !in d.denied
  }

  /** The files after loading fresh stores at the database files named in
      `names`: each unparseable one now holds the empty object. */
  ghost function Reinitialised(d: Disk, names: seq<string>): (m: map<Path, FileContent>)
  {
    map p | p in d.files :: if p.dir == DbDir && p.base in names && !Loadable(d, p) then Stringify(map[]) else d.files[p]
  }

  lemma ReinitialisedStep(d: Disk, names: seq<string>, n: string)
    requires Path(DbDir, n) in d.files
    ensures var path := Path(DbDir, n);
            Reinitialised(d, names + [n]) ==
              if Loadable(d, path) then Reinitialised(d, names) else Reinitialised(d, names)[path := Stringify(map[])]
  {
  }

  lemma ReinitialisedAll(d: Disk, listing: seq<string>)
    requires ListsDbDir(d, listing)
    ensures Reinitialised(d, listing).Keys == d.files.Keys
    ensures forall p :: p in d.files ==>
              Reinitialised(d, listing)[p] == if p.dir == DbDir && !Loadable(d, p) then Stringify(map[]) else d.files[p]
  {
  }

  /** One step of `loadDBDir`: load a fresh store at the directory entry
      `fileName` and build its registry entry. */
  method LoadEntry(d: Disk, fileName: string) returns (e: Entry, d': Disk, error: Option<IoError>)
    requires DbDir in d.dirs
    ensures var path := Path(DbDir, fileName);
            && (error.None? <==> Recoverable(d, path))
            && (error.None? ==> e == LoadedEntry(d, fileName))
            && (error.None? ==> d'.files == if Loadable(d, path) then d.files else d.files[path := Stringify(map[])])
            && d'.dirs == d.dirs && d'.denied == d.denied
  {
    var io := Load(Persistent.New(Path(DbDir, fileName), None), d);
    var id := ParseAsWritten(fileName);
    match io.result {
      case Failure(err) =>
        e, d', error := Entry(Persistent.New(Path(DbDir, fileName), None), id.name, id.pass), io.disk, Some(err);
      case Success(db) =>
        e, d', error := Entry(db, id.name, id.pass), io.disk, None;
    }
  }

  /** `updateDBDir` and `loadDBDir`: make sure the database directory exists,
      then load every file in it into a fresh registry. An unparseable file
      is overwritten with the empty object; a load that throws stops startup.
      The file name is parsed as the source does (see ParseAsWritten). */
  method Bootstrap(d: Disk, listing: seq<string>) returns (s: Server, error: Option<IoError>)
    requires ListsDbDir(d, listing)
    ensures s.disk.dirs == d.dirs + {DbDir} && s.disk.denied == d.denied
    ensures error.None? <==> forall i :: 0 <= i < |listing| ==> Recoverable(d, Path(DbDir, listing[i]))
    ensures error.None? ==> |s.entries| == |listing|
    ensures error.None? ==> forall i :: 0 <= i < |listing| ==> s.entries[i] == LoadedEntry(d, listing[i])
    ensures error.None? ==> s.disk.files.Keys == d.files.Keys
    ensures error.None? ==> forall p :: p in d.files ==>
              s.disk.files[p] == if p.dir == DbDir && !Loadable(d, p) then Stringify(map[]) else d.files[p]
    ensures error.None? && (forall i :: 0 <= i < |listing| ==> SafeFileName(listing[i])) ==> Consistent(s)
  {
    var d0 := MakeDir(d, DbDir);
    var entries, disk;
    entries, disk, error := LoadDir(d0, listing);
    s := Server(entries, disk);
    SameFilesSameLoad(d0, d, listing);
    if error.None? {
      LoadedEntriesAt(d, listing);
      ReinitialisedAll(d, listing);
      if forall j :: 0 <= j < |listing| ==> SafeFileName(listing[j]) {
        LoadedRegistryConsistent(d, listing, s);
      }
    }
  }

  /** The entries loading fresh stores at the files `names` builds, in order. */
  function LoadedEntries(d: Disk, names: seq<string>): (es: seq<Entry>)
    decreases |names|
  {
    if |names| == 0 then [] else LoadedEntries(d, names[..|names| - 1]) + [LoadedEntry(d, names[|names| - 1])]
  }

  lemma {:induction false} LoadedEntriesAt(d: Disk, names: seq<string>)
    ensures |LoadedEntries(d, names)| == |names|
    ensures forall i :: 0 <= i < |names| ==> LoadedEntries(d, names)[i] == LoadedEntry(d, names[i])
    decreases |names|
  {
    if |names| > 0 {
      var init := names[..|names| - 1];
      LoadedEntriesAt(d, init);
      assert forall i :: 0 <= i < |init| ==> init[i] == names[i];
    }
  }

  /** Loading depends only on the files and the denied paths. */
  lemma SameFilesSameLoad(d1: Disk, d2: Disk, names: seq<string>)
    requires d1.files == d2.files && d1.denied == d2.denied
    ensures LoadedEntries(d1, names) == LoadedEntries(d2, names)
    ensures Reinitialised(d1, names) == Reinitialised(d2, names)
    ensures AllRecoverable(d1, names) == AllRecoverable(d2, names)
  {
    SameFilesSameEntries(d1, d2, names);
  }

  lemma {:induction false} SameFilesSameEntries(d1: Disk, d2: Disk, names: seq<string>)
    requires d1.files == d2.files && d1.denied == d2.denied
    ensures LoadedEntries(d1, names) == LoadedEntries(d2, names)
    decreases |names|
  {
    if |names| > 0 {
      var init := names[..|names| - 1];
      SameFilesSameEntries(d1, d2, init);
      assert LoadedEntry(d1, names[|names| - 1]) == LoadedEntry(d2, names[|names| - 1]);
    }
  }

  /** Every file in `names` can be loaded or overwritten. */
  predicate AllRecoverable(d: Disk, names: seq<string>)
  {
    forall i :: 0 <= i < |names| ==> Recoverable(d, Path(DbDir, names[i]))
  }

  /** The loop of `loadDBDir`: loads every listed file in turn, stopping at
      the first load that throws. */
  method LoadDir(d: Disk, listing: seq<string>) returns (entries: seq<Entry>, disk: Disk, error: Option<IoError>)
    requires DbDir in d.dirs
    requires forall i :: 0 <= i < |listing| ==> Path(DbDir, listing[i]) in d.files
    requires forall i, j :: 0 <= i < j < |listing| ==> listing[i] != listing[j]
    ensures disk.dirs == d.dirs && disk.denied == d.denied
    ensures error.None? <==> AllRecoverable(d, listing)
    ensures error.None? ==> entries == LoadedEntries(d, listing) && disk.files == Reinitialised(d, listing)
  {
    disk := d;
    entries := [];
    var i := 0;
    while i < |listing|
      invariant 0 <= i <= |listing|
      invariant disk.dirs == d.dirs && disk.denied == d.denied
      invariant disk.files == Reinitialised(d, listing[..i])
      invariant entries == LoadedEntries(d, listing[..i])
      invariant AllRecoverable(d, listing[..i])
    {
      var name := listing[i];
      LoadDirStep(d, listing, i, disk);
      LoadedEntriesSnoc(d, listing, i);
      var e, disk', err := LoadEntry(disk, name);
      if err.Some? {
        return entries, disk, err;
      }
      entries := entries + [e];
      disk := disk';
      i := i + 1;
    }
    assert listing[..i] == listing;
    error := None;
  }

  /** One iteration of `loadDBDir`: the file about to be loaded is still as
      it was, so loading it now behaves as loading it on the initial disk. */
  lemma LoadDirStep(d: Disk, listing: seq<string>, i: nat, disk: Disk)
    requires i < |listing|
    requires forall j :: 0 <= j < |listing| ==> Path(DbDir, listing[j]) in d.files
    requires forall j, k :: 0 <= j < k < |listing| ==> listing[j] != listing[k]
    requires disk.files == Reinitialised(d, listing[..i]) && disk.denied == d.denied
    requires AllRecoverable(d, listing[..i])
    ensures var path := Path(DbDir, listing[i]);
            && LoadedEntry(disk, listing[i]) == LoadedEntry(d, listing[i])
            && (Recoverable(disk, path) <==> Recoverable(d, path))
            && (!Recoverable(d, path) ==> !AllRecoverable(d, listing))
            && (Recoverable(d, path) ==> AllRecoverable(d, listing[..i + 1]))
            && Reinitialised(d, listing[..i + 1]) ==
                 if Loadable(disk, path) then disk.files else disk.files[path := Stringify(map[])]
  {
    var name := listing[i];
    var path := Path(DbDir, name);
    assert name !in listing[..i];
    assert disk.files[path] == d.files[path];
    ReinitialisedStep(d, listing[..i], name);
    assert listing[..i + 1] == listing[..i] + [name];
    SameFileSameEntry(disk, d, name);
  }

  lemma LoadedEntriesSnoc(d: Disk, names: seq<string>, i: nat)
    requires i < |names|
    ensures LoadedEntries(d, names[..i + 1]) == LoadedEntries(d, names[..i]) + [LoadedEntry(d, names[i])]
  {
    assert names[..i + 1][..i] == names[..i];
  }

  /** Loading an entry depends only on its own file. */
  lemma SameFileSameEntry(d1: Disk, d2: Disk, name: string)
    requires Path(DbDir, name) in d1.files && Path(DbDir, name) in d2.files
    requires d1.files[Path(DbDir, name)] == d2.files[Path(DbDir, name)]
    ensures LoadedEntry(d1, name) == LoadedEntry(d2, name)
  {
  }

  /** Entries at the listed files, holding what loading them yields, whose
      identities format back to their files, agree with the loaded disk. */
  lemma LoadedFilesConsistent(d: Disk, listing: seq<string>, s: Server)
    requires ListsDbDir(d, listing)
    requires |s.entries| == |listing|
    requires forall i :: 0 <= i < |listing| ==> s.entries[i].body == LoadedEntry(d, listing[i]).body
    requires forall i :: 0 <= i < |listing| ==> FormatDbName(s.entries[i].pass, s.entries[i].name) == Path(DbDir, listing[i])
    requires s.disk.files.Keys == d.files.Keys
    requires forall p :: p in d.files ==>
               s.disk.files[p] == if p.dir == DbDir && !Loadable(d, p) then Stringify(map[]) else d.files[p]
    ensures Consistent(s)
  {
  }

  /** A registry loaded from a directory whose every file name formats a safe
      identity (one the source's parse recovers) is consistent. */
  lemma LoadedRegistryConsistent(d: Disk, listing: seq<string>, s: Server)
    requires ListsDbDir(d, listing)
    requires forall i :: 0 <= i < |listing| ==> SafeFileName(listing[i])
    requires |s.entries| == |listing|
    requires forall i :: 0 <= i < |listing| ==> s.entries[i] == LoadedEntry(d, listing[i])
    requires s.disk.files.Keys == d.files.Keys
    requires forall p :: p in d.files ==>
               s.disk.files[p] == if p.dir == DbDir && !Loadable(d, p) then Stringify(map[]) else d.files[p]
    ensures Consistent(s)
  {
    forall j | 0 <= j < |listing|
      ensures FormatDbName(s.entries[j].pass, s.entries[j].name) == Path(DbDir, listing[j])
    {
      var pass, name :| SafeIdentity(pass, name) && FormatDbName(pass, name).base == listing[j];
      AsWrittenRoundTrip(pass, name);
    }
    LoadedFilesConsistent(d, listing, s);
  }

  /** The directory entry `[a-b]-c.json` loads as credential `a` and name
      `b]-c`, whose formatted file is another one: any registry holding that
      entry is inconsistent, and later updates write to a different file. */
  lemma DashedCredentialInconsistent(d: Disk, s: Server, i: int)
    requires 0 <= i < |s.entries|
    requires s.entries[i] == LoadedEntry(d, FormatDbName("a-b", "c").base)
    ensures s.entries[i].pass == "a" && s.entries[i].name == "b]-c"
    ensures FormatDbName(s.entries[i].pass, s.entries[i].name) != s.entries[i].body.path
    ensures !Consistent(s)
  {
    var f := FormatDbName("a-b", "c").base;
    DashedFilesDiffer();
    assert s.entries[i].pass == "a" && s.entries[i].name == "b]-c" by {
      AsWrittenDashInPass();
    }
    assert s.entries[i].body.path == Path(DbDir, f);
  }

  lemma DashedFilesDiffer()
    ensures FormatDbName("a", "b]-c") != Path(DbDir, FormatDbName("a-b", "c").base)
  {
    assert FormatDbName("a", "b]-c").base[2] != FormatDbName("a-b", "c").base[2];
  }

  /** A registry loaded with the corrected parse from a directory of
      conforming file names is consistent. */
  lemma CorrectedRegistryConsistent(d: Disk, listing: seq<string>, s: Server)
    requires ListsDbDir(d, listing)
    requires forall i :: 0 <= i < |listing| ==> Conforming(listing[i])
    requires |s.entries| == |listing|
    requires forall i :: 0 <= i < |listing| ==> s.entries[i] == CorrectedEntry(d, listing[i])
    requires s.disk.files.Keys == d.files.Keys
    requires forall p :: p in d.files ==>
               s.disk.files[p] == if p.dir == DbDir && !Loadable(d, p) then Stringify(map[]) else d.files[p]
    ensures Consistent(s)
  {
    LoadedFilesConsistent(d, listing, s);
  }
}
