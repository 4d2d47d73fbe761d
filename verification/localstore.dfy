/** The state the update pipeline reads and writes outside itself: files on
    disk (with the operations `QFile` offers and oracles saying which of them
    the platform refuses), the two persisted sync settings, and the fixed
    paths the file and database managers hand out. The bodies of the
    settings, file and database managers are not part of this model; their
    results appear here as plain state. */
module LocalStore {
  import opened Common

  /** Which file operations the platform refuses: removing a path, copying
      onto a destination path, opening a path for writing or reading. */
  datatype Faults = Faults(unremovable: set<string>, uncopyableTo: set<string>, unopenable: set<string>)

  /** Files by absolute path, with the platform's refusals. */
  datatype Disk = Disk(files: map<string, seq<byte>>, faults: Faults)

  /** The result of one file operation: the disk afterwards and the `bool`
      Qt returns. */
  datatype FileOp = FileOp(disk: Disk, ok: bool)

  /** `QFile::remove(path)`: fails when the file is missing or refused. */
  function Remove(d: Disk, path: string): (r: FileOp)
    ensures r.ok <==> path in d.files && path !in d.faults.unremovable
    ensures r.disk.faults == d.faults
    ensures r.ok ==> r.disk.files == d.files - {path}
    ensures !r.ok ==> r.disk == d
  {
    if path in d.files && path !in d.faults.unremovable
    then FileOp(d.(files := d.files - {path}), true)
    else FileOp(d, false)
  }

  /** `QFile::copy(src, dst)`: never overwrites; fails when the source is
      missing, the destination exists, or the platform refuses. */
  function Copy(d: Disk, src: string, dst: string): (r: FileOp)
    ensures r.ok <==> src in d.files && dst !in d.files && dst !in d.faults.uncopyableTo
    ensures r.disk.faults == d.faults
    ensures r.ok ==> r.disk.files == d.files[dst := d.files[src]]
    ensures !r.ok ==> r.disk == d
  {
    if src in d.files && dst !in d.files && dst !in d.faults.uncopyableTo
    then FileOp(d.(files := d.files[dst := d.files[src]]), true)
    else FileOp(d, false)
  }

  /** `QFile::open(QFile::WriteOnly)` followed by `write(content)` and
      `close()`: truncates or creates the file; only the open can fail. */
  function WriteFile(d: Disk, path: string, content: seq<byte>): (r: FileOp)
    ensures r.ok <==> path !in d.faults.unopenable
    ensures r.disk.faults == d.faults
    ensures r.ok ==> r.disk.files == d.files[path := content]
    ensures !r.ok ==> r.disk == d
  {
    if path !in d.faults.unopenable
    then FileOp(d.(files := d.files[path := content]), true)
    else FileOp(d, false)
  }

  /** `QFile::open(QIODevice::ReadOnly)` followed by `readAll()`. */
  function ReadFile(d: Disk, path: string): (r: Option<seq<byte>>)
    ensures r.Some? <==> path in d.files && path !in d.faults.unopenable
    ensures r.Some? ==> r.value == d.files[path]
  {
    if path in d.files && path !in d.faults.unopenable then Some(d.files[path]) else None
  }

  /** Best-effort removal of `dir + name` for every name, in order, ignoring
      failures (the loop at the end of a completed sync). */
  function RemoveEach(d: Disk, dir: string, names: seq<string>): (r: Disk)
    ensures r.faults == d.faults
    ensures r.files.Keys <= d.files.Keys
    ensures forall p :: p in r.files ==> r.files[p] == d.files[p]
    ensures forall i :: 0 <= i < |names| && dir + names[i] !in d.faults.unremovable ==>
              dir + names[i] !in r.files
    ensures forall p :: p in d.files && (p in d.faults.unremovable || forall i :: 0 <= i < |names| ==> p != dir + names[i]) ==>
              p in r.files
    decreases |names|
  {
    if names == [] then d
    else RemoveEach(Remove(d, dir + names[0]).disk, dir, names[1..])
  }

  /** Two disks hold the same files, with the same contents, at every path
      outside `paths`. */
  ghost predicate AgreeOutside(a: Disk, b: Disk, paths: set<string>) {
    forall p :: p !in paths ==>
      (p in a.files <==> p in b.files) && (p in a.files ==> a.files[p] == b.files[p])
  }

  /** Agreement outside a set of paths chains. */
  lemma AgreeOutsideTrans(a: Disk, b: Disk, c: Disk, paths: set<string>)
    requires AgreeOutside(a, b, paths) && AgreeOutside(b, c, paths)
    ensures AgreeOutside(a, c, paths)
  {
  }

  /** The persisted sync settings and the fixed locations the managers
      report: the plant database file, the image directory (with its
      trailing separator) and the image metadata JSON file. `localFiles`
      and `obsoleteFiles` stand for the file manager's inventory and its
      list of files no longer needed. */
  datatype Env = Env(
    plantDbRevision: u64,
    syncAborted: bool,
    disk: Disk,
    dbPath: string,
    filesDir: string,
    imageMetaJsonPath: string,
    localFiles: seq<string>,
    obsoleteFiles: seq<string>)

  /** The sibling file the database is copied to before it is replaced. */
  function BackupPath(dbPath: string): (backup: string)
    ensures |backup| == |dbPath| + 7 && backup[..|dbPath|] == dbPath
  {
    dbPath + ".backup"
  }
}
