# db-for-deno storage layer, modelled in Dafny

This project models the storage core of a small multi-tenant key-value store.
The store keeps each database as one JSON file on disk. The model has four layers.

- **`TemporalStorage`** (`temporal.dfy`, module `Temporal`): the in-memory store.
  It is a map from string keys to JSON values, with `append`, `select`, `remove`,
  `reset` and `keys`.
- **`PersistentStorage`** (`persistent.dfy`, module `Persistent`): a temporal store
  plus a file path, with `load`, `save`, `delete`, `setPath` and `getPath`.
  These run against a filesystem value (`files.dfy`, module `Files`). That value
  holds the existing directories, the files and their contents, and the paths the
  process may not write or remove.
- **The helpers of `source/utils.ts`** (`utils.dfy`, module `Utils`):
  `getAllData`, which merges several stores with later stores winning; the
  conversion and save helpers; and the `isArray`/`isObject` shape tests.
- **The database registry of `server/router.ts`** (`registry.dfy`, module
  `Registry`, and `dbname.dfy`, module `DbName`): the list of
  `(store, name, credential)` entries and the create, delete, update, select and
  append operations on it. Each operation takes the credential, the name and the
  payload directly. It returns the new registry and disk plus a reply: a message,
  the store's content, not-found, or the I/O error the handler would throw. Also
  here: the file name `[<credential>]-<name>.json`, its parse back into a
  credential and a name, and the start-up load of the database directory.

Every operation is a pure state transformer over immutable values. A file
operation can fail in three ways. The file is missing. The parent directory is
missing. Or the path is in the disk's `denied` set, which stands for every
write or remove permission failure. Two things the environment decides are inputs to the model:
the order `for...in` visits the payload's keys, and the order the directory
listing returns its files.

`registry_properties.dfy` (module `RegistryProperties`) relates the operations
to each other. It defines a consistency invariant, `Registry.Consistent`: each
entry's file is the formatted name of its credential and name, no two entries
share a file, and each file holds its entry's content. It proves which
operations keep that invariant. It also proves what a later select sees, and
that a duplicate create breaks the invariant. `Lifecycle` proves one database's
whole create–append–update–select–delete–select sequence.

## Model

| member | source | states |
|---|---|---|
| `Temporal.New` | source/temporal.ts:7 | A store built without a storage argument is empty; one built with a storage holds exactly it. |
| `Temporal.NewIsEmpty` | source/temporal.ts:7 | A fresh store has no keys, and selecting any key gives nothing. |
| `Temporal.Append` | source/temporal.ts:9-11 | `append(k, v)` adds `k` to the keys, maps it to `v`, and keeps every other key's value. |
| `Temporal.AppendThenSelect` | source/temporal.ts:9-15 | After `append(k, v)`, `select(k)` is `v`, and `select` of any other key is what it was before. |
| `Temporal.Select` | source/temporal.ts:13-15 | `select(k)` is present exactly when `k` is a key, and then it is `k`'s value. As a function, it cannot change the store. |
| `Temporal.Remove` | source/temporal.ts:17-19 | `remove(k)` drops `k` from the keys and keeps every other key's value. |
| `Temporal.RemoveThenSelect` | source/temporal.ts:17-19 | After `remove(k)`, `select(k)` is absent. Removing an absent key leaves the store equal to what it was. |
| `Temporal.AppendThenRemove` | source/temporal.ts:9-19 | Appending a new key and then removing it restores the original store. |
| `Temporal.Reset` | source/temporal.ts:21-23 | After `reset()` the store has no entries. |
| `Temporal.ResetThenSelect` | source/temporal.ts:21-27 | After `reset()` no key can be selected, and the store equals a freshly built one, so `keys()` lists nothing. |
| `Temporal.Keys` | source/temporal.ts:25-27 | `keys()` lists each key of the store exactly once, in some order, and lists nothing else. |
| `Files.ParseStringify` | source/persistent.ts:31 | Parsing the serialisation of a store gives the store back, so serialisation is injective. |
| `Files.Parse` | source/persistent.ts:31 | Parsing succeeds exactly for serialised stores; malformed text does not parse. |
| `Files.ReadText` | source/persistent.ts:31 | Reading gives the file's content, or fails with no-such-file when there is none. |
| `Files.WriteText` | source/persistent.ts:44 | A write succeeds exactly when the directory exists and the path is not denied. Then the path holds the new content and every other file is unchanged. A failed write changes nothing. |
| `Files.RemoveFile` | source/persistent.ts:18-20 | Removal succeeds exactly when the file exists and is not denied. Then that one file is gone and the rest are unchanged. A missing file fails with no-such-file. |
| `Files.MakeDir` | server/router.ts:142-147 | After `mkdir` the database directory exists; files are untouched. |
| `Persistent.New` | source/persistent.ts:9-11 | The constructor keeps the path and takes the optional storage, which defaults to empty. |
| `Persistent.Save` | source/persistent.ts:43-47 | `save` succeeds exactly when the path is writable. Then the file at the path parses to the in-memory storage, every other file is unchanged, and the same store is returned. A failed save changes nothing. |
| `Persistent.Load` | source/persistent.ts:29-37 | A file that exists and parses replaces the storage, and the disk is untouched. Otherwise the current storage is kept and saved, and that save's failure is `load`'s failure. On success the file holds the returned storage and the path is unchanged. |
| `Persistent.Delete` | source/persistent.ts:17-23 | `delete` removes the store's file and fails with no-such-file when it is absent. The storage, the other files and the returned store are unchanged. |
| `Persistent.SetPath` | source/persistent.ts:53-62 | After `setPath(p)`, `getPath()` is `p` and the storage is untouched. As functions, neither can touch the disk. |
| `Persistent.SaveThenLoad` | source/persistent.ts:29-47 | Round trip: saving storage `s` at a path, then loading a fresh store at that path, yields `s`. |
| `Persistent.LoadFresh` | source/persistent.ts:30-34 | A fresh store over a missing or unparseable file stays empty and leaves a file holding the empty object. |
| `Utils.ParsePersistentToTemporal` | source/utils.ts:10-13 | The temporal store has the same contents as the persistent one, key by key. |
| `Utils.SaveTemporalStorage` | source/utils.ts:20-23 | Succeeds exactly when the path is writable, and then that one path is added or replaced and parses to the temporal store's storage. Other files, directories and permissions are unchanged; a failure changes nothing. |
| `Utils.SaveTemporalMatchesSave` | source/utils.ts:20-23 | It writes exactly what `save` of a persistent store with the same path and storage writes, and succeeds in the same cases. |
| `Utils.CopyKeys` | source/utils.ts:34-36 | Copying every key of a store into the result lays that store over the result. |
| `Utils.GetAllData` | source/utils.ts:30-40 | The loop computes the left-to-right merge of the stores. |
| `Utils.MergeAllKeys` | source/utils.ts:33-36 | The merged key set is the union of the stores' key sets. |
| `Utils.MergeAllLast` | source/utils.ts:33-36 | A key held by several stores takes its value from the last of them. |
| `Utils.MergeAllSmall` | source/utils.ts:30-31 | Merging no stores gives the empty object; merging one store gives its contents. |
| `Utils.IsObjectExactly` | source/utils.ts:65-76 | `isObject` holds exactly for JSON objects with no `length` member. So it is false for arrays, `null` and primitives, and never holds together with `isArray`, which holds exactly for arrays. |
| `DbName.FormatDbName` | server/router.ts:140 | The formatted file lies in the database directory, and its name always has the `[c]-n.json` shape the corrected parse reads. |
| `DbName.ParseAsWritten` | server/router.ts:154-160 | The source's parse never yields a credential containing `-`, `[` or `]`, whatever credential was formatted into the file name. |
| `DbName.ParseDbFileName` | server/router.ts:154-160 | The corrected parse reads from a `[c]-n.json` name a credential that holds no `]-`. |
| `DbName.AsWrittenRoundTrip` | server/router.ts:154-160 | The source's filename parse recovers the credential and name that `formatDBName` encoded, names containing `-` included. Sufficient conditions: a credential free of `-`, `[` and `]`, and a name free of `.json`. |
| `DbName.AsWrittenDashInPass` | server/router.ts:154-160 | Counterexample: credential `a-b` with name `c` is read back as credential `a` with name `b]-c`. |
| `DbName.AsWrittenJsonInName` | server/router.ts:159 | Counterexample: name `x.jsonl` is read back as `xl.json`. |
| `DbName.FormatThenParse` | server/router.ts:140 | The corrected parse recovers credential and name for every name and every credential without `]-`. |
| `DbName.ParseThenFormat` | server/router.ts:140 | Every file name of the shape `[c]-n.json` is the formatted name of its parse, so a database loaded from disk saves back to the file it came from. |
| `DbName.ParsersAgree` | server/router.ts:154-160 | Under the sufficient conditions of `AsWrittenRoundTrip`, the corrected parse gives the same answer as the source's. |
| `DbName.FormatCollision` | server/router.ts:140 | `formatDBName` is not injective: credential `a` with name `b]-c` and credential `a]-b` with name `c` share one file. |
| `DbName.ParseExample` | server/router.ts:152-160 | The directory entry `[p1]-db-one.json` is credential `p1` and database `db-one`. |
| `DbName.ParseExampleAsWritten` | server/router.ts:154-160 | The source's own parse gets that entry right too. |
| `DbName.JoinSplit` | server/router.ts:154-159 | Rejoining the pieces of a split on `-` restores the file name. |
| `Registry.FindIndex` | server/router.ts:57 | The lookup returns the first entry whose name and credential both match, or -1 when none matches. |
| `Registry.Create` | server/router.ts:40-51 | On success, exactly one entry is pushed at the end and earlier entries are unchanged. The new entry has the given name and credential, its store sits at the formatted path and holds the file's content (empty when the file was missing or did not parse), and the file holds that content. Create fails only when the load's save fails, and then nothing changes. |
| `Registry.DeleteDb` | server/router.ts:53-64 | With no match the answer is not-found and nothing changes. Otherwise exactly the first match is removed, the other entries keep their order, and its file is removed. If the removal fails, the entry and the disk stay. |
| `Registry.UpdateDb` | server/router.ts:66-77 | With no match the answer is not-found and nothing changes. Otherwise the first match's store is replaced by the payload, with no merge, and the formatted file then parses to the payload. The registry's length and the other entries are unchanged. |
| `Registry.SelectDb` | server/router.ts:79-94 | Gives the first matching entry's whole content, or not-found exactly when no entry matches. It never changes state. |
| `Registry.AppendEach` | server/router.ts:104-107 | The per-key loop completes exactly when the payload is empty or the file is writable, and then does one save per key. A failing save ends the loop with the failing key already in memory and nothing written. |
| `Registry.AppendEachWrites` | server/router.ts:104-107 | The j-th save writes the store as it stands after the first j+1 keys, so after each save the file equals the in-memory store. |
| `Registry.AppendEachStorage` | server/router.ts:104-105 | A completed loop leaves the store with the payload's keys laid over it in order. |
| `Registry.AppendEachDisk` | server/router.ts:106 | The disk is untouched when nothing was written. Otherwise only the store's file changed, and it holds the last write. |
| `Registry.OverlayAll` | server/router.ts:104-105 | Appending every payload key in turn is the merge in which payload values override. |
| `Registry.AppendDb` | server/router.ts:96-110 | With no match the answer is not-found and nothing changes. Otherwise the first match's store becomes the old content merged with the payload, payload winning, and its file then holds the merged content. The name, the path and the other entries are unchanged. A failed save leaves the first key in memory and the disk untouched. An empty payload writes nothing and changes no entry. |
| `Registry.LoadedEntry` | server/router.ts:155-161 | The entry built for a directory entry sits at that file, holds exactly the store that loading a fresh store there yields, and carries the source's parse of the file name, so its credential never contains `-`. |
| `Registry.CorrectedEntry` | server/router.ts:155-161 | A corrected loader's entry holds the same store, under the corrected parse; for a `[c]-n.json` file, its identity formats back to that file. |
| `Registry.LoadEntry` | server/router.ts:153-161 | One directory entry becomes the entry above, holding the file's content, or the empty object after overwriting an unparseable file. It fails exactly when that overwrite is denied. |
| `Registry.LoadDir` | server/router.ts:152-165 | The directory is loaded entry by entry, stopping at the first failing load. |
| `Registry.Bootstrap` | server/router.ts:142-165 | After start-up the database directory exists. It succeeds exactly when every listed file parses or may be overwritten. Then it holds one entry per listed file, in listing order, and every unparseable database file now holds the empty object. Identities come from the source's parse. If every file name is the formatted name of a credential free of `-`, `[` and `]` and a name free of `.json`, the registry is consistent. |
| `Registry.LoadDirStep` | server/router.ts:153-161 | Each iteration loads a file the earlier iterations left untouched, so it builds the same entry, and fails in the same cases, as loading it on the initial disk would. |
| `Registry.LoadedEntriesAt` | server/router.ts:157-161 | The i-th loaded entry belongs to the i-th listed file. |
| `Registry.LoadedFilesConsistent` | server/router.ts:152-165 | Loaded entries whose identities format back to their own files agree with the loaded disk. |
| `Registry.LoadedRegistryConsistent` | server/router.ts:152-165 | A registry the source's loader builds agrees with the disk when every file name formats a credential free of `-`, `[` and `]` and a name free of `.json`. |
| `Registry.DashedCredentialInconsistent` | server/router.ts:154-160 | The source's loader turns `[a-b]-c.json` into credential `a`, name `b]-c`, whose formatted file is a different one, so a registry holding that entry is inconsistent. |
| `Registry.CorrectedRegistryConsistent` | server/router.ts:152-165 | A registry loaded with the corrected parse from `[c]-n.json` file names is consistent. |
| `RegistryProperties.ConsistentUnique` | server/router.ts:57 | In a consistent registry at most one entry answers to a credential and name. |
| `RegistryProperties.CreateKeepsConsistent` | server/router.ts:44-48 | Creating a database whose file no entry uses keeps the registry consistent. |
| `RegistryProperties.CreateDuplicate` | server/router.ts:44-48 | Creating an existing credential and name again succeeds. The new entry shares the first one's file and is never found by a lookup, so the registry is no longer consistent. |
| `RegistryProperties.DeleteKeepsConsistent` | server/router.ts:57-61 | Delete keeps a consistent registry consistent. |
| `RegistryProperties.RemoveEntryConsistent` | server/router.ts:60-61 | Dropping one entry together with its file, and touching nothing else, keeps a consistent registry consistent. |
| `RegistryProperties.ReplaceEntryConsistent` | server/router.ts:66-110 | Replacing one entry's store in place, at the same file and in sync with it, while no other file changes, keeps a consistent registry consistent. |
| `RegistryProperties.DeleteThenSelect` | server/router.ts:57-61 | After a successful delete in a consistent registry, select answers not-found and the file is gone. |
| `RegistryProperties.UpdateKeepsConsistent` | server/router.ts:74 | Update keeps a consistent registry consistent. |
| `RegistryProperties.UpdateThenSelect` | server/router.ts:74 | After a successful update, select returns exactly the payload. |
| `RegistryProperties.AppendKeepsConsistent` | server/router.ts:104-107 | A completed append keeps a consistent registry consistent. |
| `RegistryProperties.AppendThenSelect` | server/router.ts:104-107 | After a completed append, select returns the old content with the payload laid over it. |
| `RegistryProperties.Lifecycle` | server/router.ts:40-110 | Create `("secret", "alice")` and its file holds `{}`. Append `{"x": 1}` and it holds `{"x": 1}`. Update with `{"y": 2}` and it holds exactly `{"y": 2}`, which select returns. Delete removes the file, and select then answers not-found. |

## Findings

| source | as written | input that shows it | evidently intended | confidence | as-written member | corrected member |
|---|---|---|---|---|---|---|
| server/router.ts:154 | `entry.name.split("-")` cuts the credential at the first `-` anywhere in the file name. | Credential `a-b`, name `c`: file `[a-b]-c.json` is reloaded as credential `a`, name `b]-c`, so after a restart the owner's lookups answer not-found. | The credential is the bracketed prefix, up to the first `]-`. | high; not executed | `DbName.AsWrittenDashInPass` | `DbName.FormatThenParse` |
| server/router.ts:159 | `.replace(".json", "")` removes the first `.json` in the rejoined name, not the extension. | Name `x.jsonl`: file `[p]-x.jsonl.json` is reloaded as name `xl.json`. | Strip the trailing `.json` extension only. | high; not executed | `DbName.AsWrittenJsonInName` | `DbName.FormatThenParse` |

`DbName.ParseAsWritten` models the source's parse exactly, and `Registry.Bootstrap` uses it, as `loadDBDir` does. `Registry.DashedCredentialInconsistent` shows the consequence for a loaded registry. `DbName.ParseDbFileName` is the corrected parse. For a file name not of the shape `[c]-n.json`, it falls back to the source's parse. `Registry.CorrectedEntry` and `Registry.CorrectedRegistryConsistent` are the corrected loader and its consistency. `DbName.ParsersAgree` shows that the two parses coincide under the sufficient conditions of `DbName.AsWrittenRoundTrip`.

## Left out

- HTTP plumbing is not modelled: routing, `allowedMethods`, and reading `pass`, `name` and `body` out of the request. That includes their `""` defaults and a non-object `body`. Response status and headers are out too. Each operation takes the credential, the name and an object payload directly.
- `server/server.ts` is not part of this model. It holds the process wiring, the port and `listen`.
- Real Deno I/O is replaced by the `Disk` value. Failures are deterministic: a missing file, a missing parent directory, or a denied path. Transient failures are not modelled, such as a disk that fills between two saves.
- `Registry.AppendEach`: because failures are per path, a failing append can only fail on its first save. A save failing part-way through the keys cannot be shown, though the per-save contents are still stated for every save.
- `updateDBDir` swallows a `mkdir` error. Here `mkdir` always succeeds, so a directory that cannot be created (making the listing throw) is not modelled.
- The order of the directory listing and of `for...in` over the payload are inputs. The requires say each lists every file or key exactly once.
- JSON text is abstract. `Files.FileContent` is either a serialised store or malformed text, and `Stringify`/`Parse` are exact inverses.
- Number formatting and floating point are out; numbers are reals. Values JSON cannot carry, such as `undefined`, functions and `NaN`, are out too.
- A file holding valid JSON that is not an object cannot be represented. The source would install such a value unchecked through a type cast.
- `PersistentStorage.toJson`, called by select, is not defined in the classes here. `Registry.SelectDb` answers with the store's content itself.
- The special meaning of the key `__proto__` for JavaScript objects is not modelled.
- Temporal.Select: members inherited from `Object.prototype` are not modelled. In the source, `select("toString")` or `select("constructor")` on a store without that own key returns a function, not `undefined`; here it is absent. `getAllData`, the only other caller, selects only keys that `keys()` listed.
- Read permission is not modelled: `denied` blocks writes and removals only, so a file that exists but cannot be read is not represented.
- `path.join` normalisation is not modelled. A path is a directory plus a verbatim basename, so a credential or name containing `/` or `..`, which would escape the database directory, is not analysed.
- Registry.Bootstrap: the listing holds only the file entries of the database directory. A subdirectory there, which `Deno.readDir` also yields, can be neither read nor overwritten, so the source's start-up throws on it; the model has no such entries.
- `Persistent.Delete` does not model the `recursive: true` removal of a directory. Paths name files only.
- `Utils.ParsePersistentToTemporal`: in the source, the temporal store shares the persistent store's storage object, so later writes through one are seen by the other. The model works with values and states equality at the moment of conversion only.
- Async interleaving between concurrent requests is not modelled: every operation runs to completion. The same goes for `console.log` output, and for `isString` and `isNumber`, which are plain `typeof` tests.
- The working directory is fixed: `DbName.DbDir` is `server/db` and is not resolved against the process's working directory.
