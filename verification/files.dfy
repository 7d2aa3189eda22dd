/** The filesystem the persistent store reads and writes, as a value. */
module Files {
  import opened Base
  import opened Temporal

  /** A file path: a directory plus a basename inside it. */
  datatype Path = Path(dir: string, base: string)

  /** What a file holds: the JSON text of a store, or text that does not
      parse as JSON. The serialiser is abstract: `Serialized(s)` stands for
      the text `JSON.stringify(s)`. */
  datatype FileContent = Serialized(doc: Storage) | Malformed(raw: string)

  /** `JSON.stringify` of a store. */
  function Stringify(s: Storage): (c: FileContent)
  {
    Serialized(s)
  }

  /** `JSON.parse`; `None` when the text is not valid JSON (the call throws). */
  function Parse(c: FileContent): (r: Option<Storage>)
    ensures r.Some? <==> c.Serialized?
  {
    match c
    case Serialized(s) => Some(s)
    case Malformed(_) => None
  }

  /** Parsing undoes serialising, so serialising is injective. */
  lemma ParseStringify(s: Storage, s': Storage)
    ensures Parse(Stringify(s)) == Some(s)
    ensures Stringify(s) == Stringify(s') ==> s == s'
  {
  }

  /** The existing directories, the files and their contents, and the paths
      the process is not permitted to write or remove. */
  datatype Disk = Disk(dirs: set<string>, files: map<Path, FileContent>, denied: set<Path>)

  /** The result of an I/O call together with the disk it leaves behind. */
  datatype Io<+T> = Io(disk: Disk, result: Result<T>)

  /** A write to `p` succeeds exactly when its directory exists and the path is not denied. */
  predicate Writable(d: Disk, p: Path)
  {
    p.dir in d.dirs && p !in d.denied
  }

  /** `Deno.readTextFile`. */
  function ReadText(d: Disk, p: Path): (r: Result<FileContent>)
    ensures r.Success? <==> p in d.files
    ensures r.Success? ==> r.value == d.files[p]
    ensures r.Failure? ==> r.error == NoSuchFile
  {
    if p in d.files then Success(d.files[p]) else Failure(NoSuchFile)
  }

  /** `Deno.writeTextFile`: creates or replaces the file at `p`. */
  function WriteText(d: Disk, p: Path, c: FileContent): (r: Io<()>)
    ensures r.result.Success? <==> Writable(d, p)
    ensures r.result.Success? ==> r.disk.files.Keys == d.files.Keys + {p} && r.disk.files[p] == c
    ensures r.result.Success? ==> forall q :: q in d.files && q != p ==> r.disk.files[q] == d.files[q]
    ensures r.disk.dirs == d.dirs && r.disk.denied == d.denied
    ensures r.result.Failure? ==> r.disk == d
  {
    if p.dir !in d.dirs then Io(d, Failure(NoParentDirectory))
    else if p in d.denied then Io(d, Failure(PermissionDenied))
    else Io(d.(files := d.files[p := c]), Success(()))
  }

  /** `Deno.remove`: deletes the file at `p`; fails when there is none. */
  function RemoveFile(d: Disk, p: Path): (r: Io<()>)
    ensures r.result.Success? <==> p in d.files && p !in d.denied
    ensures r.result.Success? ==> r.disk.files.Keys == d.files.Keys - {p}
    ensures r.disk.files.Keys <= d.files.Keys
    ensures forall q :: q in r.disk.files ==> r.disk.files[q] == d.files[q]
    ensures r.disk.dirs == d.dirs && r.disk.denied == d.denied
    ensures r.result.Failure? ==> r.disk == d
    ensures p !in d.files ==> r.result == Failure(NoSuchFile)
  {
    if p !in d.files then Io(d, Failure(NoSuchFile))
    else if p in d.denied then Io(d, Failure(PermissionDenied))
    else Io(d.(files := d.files - {p}), Success(()))
  }

  /** `Deno.mkdir` with `recursive: true`: afterwards the directory exists. */
  function MakeDir(d: Disk, dir: string): (r: Disk)
    ensures r.dirs == d.dirs + {dir}
    ensures r.files == d.files && r.denied == d.denied
  {
    d.(dirs := d.dirs + {dir})
  }
}
