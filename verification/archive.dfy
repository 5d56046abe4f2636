/** `create_backup`: two pruned top-down walks of the source directory, the
    first sizing the progress bar, the second writing one archive entry per
    kept file; then one entry per additional file. The zip container,
    compression and the progress display itself are not modelled: an entry
    is the pair of arguments of one `zipf.write` call, and the progress
    bar's maximum is a number. */
module Archive {
  import opened FileTree
  import opened Pruning
  import PosixPath
  import Timestamp

  /** One `zipf.write(source, arcname)` call. */
  datatype Entry = Entry(source: string, arcname: string)

  /** What `create_backup` decides: the archive path it returns, the
      progress bar's maximum, and the entries written, in order. */
  datatype Backup = Backup(archive: string, progressMax: nat, entries: seq<Entry>)

  // First walk: counting.

  /** `for file in files: if file not in ignore: files_counter += 1`. */
  function CountFiles(files: seq<string>, ignore: seq<string>): nat {
    if files == [] then 0
    else (if files[0] !in ignore then 1 else 0) + CountFiles(files[1..], ignore)
  }

  /** The files counted under directory `t` by the pruned walk. A walk
      started at a regular file yields nothing. */
  function CountTree(t: Tree, ignore: seq<string>): nat
    decreases t, 1
  {
    match t
    case File(_) => 0
    case Dir(_, cs) =>
      CountFiles(FileNames(cs), ignore) + CountSubdirs(t, Prune(SubDirs(cs), ignore), ignore)
  }

  /** The walk descending into the sub-directories `ds` of `parent` that
      survived pruning, in order. */
  function CountSubdirs(parent: Tree, ds: seq<Tree>, ignore: seq<string>): nat
    requires parent.Dir?
    requires forall d :: d in ds ==> d in parent.children
    decreases parent, 0, |ds|
  {
    if ds == [] then 0
    else
      assert ds[0] in parent.children;
      CountTree(ds[0], ignore) + CountSubdirs(parent, ds[1..], ignore)
  }

  /** `files_counter`: the additional files plus the files the first walk
      counted. */
  function ProgressMax(tree: Tree, additional: seq<string>, ignore: seq<string>): nat {
    |additional| + CountTree(tree, ignore)
  }

  // Second walk: writing.

  /** `for file in files: if file not in ignore: zipf.write(...)`, with the
      on-disk path `join(root, file)` and the archive name relative to the
      parent of the source directory, accumulated in `arc`. */
  function WriteFiles(files: seq<string>, root: string, arc: string, ignore: seq<string>): seq<Entry> {
    if files == [] then []
    else
      (if files[0] !in ignore then [Entry(PosixPath.Join(root, files[0]), arc + [PosixPath.Sep] + files[0])] else [])
      + WriteFiles(files[1..], root, arc, ignore)
  }

  /** The entries the pruned walk writes below directory `t`, whose on-disk
      path is `root` and whose archive name is `arc`: its own files first,
      then each surviving sub-directory in turn. */
  function WriteTree(t: Tree, root: string, arc: string, ignore: seq<string>): seq<Entry>
    decreases t, 1
  {
    match t
    case File(_) => []
    case Dir(_, cs) =>
      WriteFiles(FileNames(cs), root, arc, ignore)
      + WriteSubdirs(t, Prune(SubDirs(cs), ignore), root, arc, ignore)
  }

  function WriteSubdirs(parent: Tree, ds: seq<Tree>, root: string, arc: string,
                        ignore: seq<string>): seq<Entry>
    requires parent.Dir?
    requires forall d :: d in ds ==> d in parent.children
    decreases parent, 0, |ds|
  {
    if ds == [] then []
    else
      assert ds[0] in parent.children;
      var d := ds[0];
      WriteTree(d, PosixPath.Join(root, d.name), arc + [PosixPath.Sep] + d.name, ignore)
      + WriteSubdirs(parent, ds[1..], root, arc, ignore)
  }

  /** The entries of the source tree found at `fpath`. The walk starts at
      `fpath`, and archive names start with the source directory's own name
      (the last component of `fpath`), which is `tree`'s name. */
  function TreeEntries(fpath: string, tree: Tree, ignore: seq<string>): seq<Entry> {
    WriteTree(tree, fpath, tree.name, ignore)
  }

  /** `zipf.write(i, path.basename(i))`: an additional file is stored
      under its base name alone. */
  function ExtraEntry(i: string): (e: Entry)
    ensures e.source == i
  {
    Entry(i, PosixPath.Basename(i))
  }

  /** `for i in additional_files: zipf.write(i, path.basename(i))`. */
  function ExtraEntries(additional: seq<string>): (r: seq<Entry>)
    ensures |r| == |additional|
    ensures forall k :: 0 <= k < |r| ==> r[k] == ExtraEntry(additional[k])
  {
    if additional == [] then []
    else [ExtraEntry(additional[0])] + ExtraEntries(additional[1..])
  }

  /** `create_backup(fpath, name, additional_files, ignore)` run at time
      `now` against the directory tree `tree` found at `fpath`. */
  function CreateBackup(fpath: string, tree: Tree, name: string, now: Timestamp.DateTime,
                        additional: seq<string>, ignore: seq<string>): (b: Backup)
    ensures b.archive == Timestamp.ArchivePath(name, now)
    ensures b.progressMax == |b.entries|
    ensures |b.entries| >= |additional|
    ensures forall k :: 0 <= k < |additional| ==>
      b.entries[|b.entries| - |additional| + k] == ExtraEntry(additional[k])
  {
    var treeEntries := TreeEntries(fpath, tree, ignore);
    var extras := ExtraEntries(additional);
    WritesMatchCount(tree, fpath, tree.name, ignore);
    Backup(Timestamp.ArchivePath(name, now), ProgressMax(tree, additional, ignore),
           treeEntries + extras)
  }

  /** The path `create_backup` returns names the archive after its label
      and the minute it was started, and both can be read back from it. */
  lemma ReturnedPathNamesBackup(fpath: string, tree: Tree, name: string, now: Timestamp.DateTime,
                                additional: seq<string>, ignore: seq<string>)
    requires Timestamp.Valid(now)
    ensures Timestamp.ParseArchivePath(CreateBackup(fpath, tree, name, now, additional, ignore).archive)
         == Timestamp.Some(Timestamp.ArchiveLabel(name, now))
  {
    Timestamp.ArchivePathRoundTrip(name, now);
  }

  // The two walks agree.

  lemma {:induction false} FilesMatchCount(files: seq<string>, root: string, arc: string,
                                           ignore: seq<string>)
    ensures |WriteFiles(files, root, arc, ignore)| == CountFiles(files, ignore)
  {
    if files != [] {
      FilesMatchCount(files[1..], root, arc, ignore);
    }
  }

  /** The second walk writes exactly as many entries as the first walk
      counted: both prune the same way and keep the same files. */
  lemma {:induction false} WritesMatchCount(t: Tree, root: string, arc: string, ignore: seq<string>)
    ensures |WriteTree(t, root, arc, ignore)| == CountTree(t, ignore)
    decreases t, 1
  {
    match t
    case File(_) =>
    case Dir(_, cs) =>
      FilesMatchCount(FileNames(cs), root, arc, ignore);
      SubdirsMatchCount(t, Prune(SubDirs(cs), ignore), root, arc, ignore);
  }

  lemma {:induction false} SubdirsMatchCount(parent: Tree, ds: seq<Tree>, root: string, arc: string,
                                             ignore: seq<string>)
    requires parent.Dir?
    requires forall d :: d in ds ==> d in parent.children
    ensures |WriteSubdirs(parent, ds, root, arc, ignore)| == CountSubdirs(parent, ds, ignore)
    decreases parent, 0, |ds|
  {
    if ds != [] {
      var d := ds[0];
      assert d in parent.children;
      WritesMatchCount(d, PosixPath.Join(root, d.name), arc + [PosixPath.Sep] + d.name, ignore);
      SubdirsMatchCount(parent, ds[1..], root, arc, ignore);
    }
  }
}
