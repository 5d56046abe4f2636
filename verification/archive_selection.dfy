/** Which files of the source tree end up in the archive, and under which
    names: exactly the files reachable without passing through a directory
    whose name is ignored and not themselves named on the ignore list, each
    stored under the source directory's name followed by its relative
    path. */
module ArchiveSelection {
  import opened FileTree
  import opened Pruning
  import opened Archive
  import PosixPath

  /** Reference definition of the entry for the file at relative path `p`
      below the directory whose on-disk path is `root` and whose archive
      name is `arc`: the source is `p` joined onto `root`, the archive name
      is `arc`, a separator, and `p` as a relative path. */
  function EntryFor(root: string, arc: string, p: seq<string>): Entry {
    Entry(SourcePath(root, p), arc + [PosixPath.Sep] + RelPath(p))
  }

  /** Descending one directory moves its name from the path into the
      on-disk path and the archive prefix. */
  lemma EntryForStep(root: string, arc: string, n: string, p: seq<string>)
    requires |p| >= 1
    ensures EntryFor(PosixPath.Join(root, n), arc + [PosixPath.Sep] + n, p) == EntryFor(root, arc, [n] + p)
  {
    var q := [n] + p;
    assert q[0] == n && q[1..] == p;
    assert RelPath(q) == n + [PosixPath.Sep] + RelPath(p);
  }

  lemma {:induction false} WriteFilesMember(files: seq<string>, root: string, arc: string,
                                            ignore: seq<string>, e: Entry)
    requires e in WriteFiles(files, root, arc, ignore)
    ensures exists f :: f in files && f !in ignore && e == Entry(PosixPath.Join(root, f), arc + [PosixPath.Sep] + f)
  {
    if e !in WriteFiles(files[1..], root, arc, ignore) {
      assert files[0] !in ignore && e == Entry(PosixPath.Join(root, files[0]), arc + [PosixPath.Sep] + files[0]);
    } else {
      WriteFilesMember(files[1..], root, arc, ignore, e);
      var f :| f in files[1..] && f !in ignore && e == Entry(PosixPath.Join(root, f), arc + [PosixPath.Sep] + f);
      assert f in files;
    }
  }

  lemma {:induction false} WriteFilesHas(files: seq<string>, root: string, arc: string,
                                         ignore: seq<string>, f: string)
    requires f in files && f !in ignore
    ensures Entry(PosixPath.Join(root, f), arc + [PosixPath.Sep] + f) in WriteFiles(files, root, arc, ignore)
  {
    if files[0] != f {
      assert f in files[1..];
      WriteFilesHas(files[1..], root, arc, ignore, f);
    }
  }

  /** Every entry written for a list of sub-directories comes from the walk
      of one of them. */
  lemma {:induction false} SubdirsMember(parent: Tree, ds: seq<Tree>, root: string, arc: string,
                                         ignore: seq<string>, e: Entry)
    requires parent.Dir?
    requires forall d :: d in ds ==> d in parent.children
    requires e in WriteSubdirs(parent, ds, root, arc, ignore)
    ensures exists k :: (0 <= k < |ds|
      && e in WriteTree(ds[k], PosixPath.Join(root, ds[k].name), arc + [PosixPath.Sep] + ds[k].name, ignore))
    decreases |ds|
  {
    var d := ds[0];
    if e !in WriteTree(d, PosixPath.Join(root, d.name), arc + [PosixPath.Sep] + d.name, ignore) {
      SubdirsMember(parent, ds[1..], root, arc, ignore, e);
      var k :| 0 <= k < |ds[1..]|
        && e in WriteTree(ds[1..][k], PosixPath.Join(root, ds[1..][k].name), arc + [PosixPath.Sep] + ds[1..][k].name, ignore);
      assert ds[1..][k] == ds[k + 1];
    }
  }

  lemma {:induction false} SubdirsHas(parent: Tree, ds: seq<Tree>, root: string, arc: string,
                                      ignore: seq<string>, d: Tree, e: Entry)
    requires parent.Dir?
    requires forall d :: d in ds ==> d in parent.children
    requires d in ds
    requires e in WriteTree(d, PosixPath.Join(root, d.name), arc + [PosixPath.Sep] + d.name, ignore)
    ensures e in WriteSubdirs(parent, ds, root, arc, ignore)
    decreases |ds|
  {
    if ds[0] != d {
      assert d in ds[1..];
      SubdirsHas(parent, ds[1..], root, arc, ignore, d, e);
    }
  }

  /** In a real tree, a sub-directory the walk descends into is a
      directory child whose name is not ignored. */
  lemma VisitedSubdir(t: Tree, d: Tree, ignore: seq<string>)
    requires WellFormed(t) && t.Dir?
    requires d in Prune(SubDirs(t.children), ignore)
    ensures d in t.children && d.Dir? && d.name !in ignore
    ensures WellFormed(d) && NameOk(d.name)
  {
    DistinctNamesOfSubDirs(t.children);
    PruneIsFilter(SubDirs(t.children), ignore);
    var i :| 0 <= i < |t.children| && t.children[i] == d;
  }

  /** A file directly inside `t` is reached by the one-component path. */
  lemma FileStep(t: Tree, root: string, arc: string, ignore: seq<string>, f: string)
    requires t.Dir? && f in FileNames(t.children) && f !in ignore
    ensures FileAt(t, [f]) && Unignored([f], ignore)
    ensures EntryFor(root, arc, [f]) == Entry(PosixPath.Join(root, f), arc + [PosixPath.Sep] + f)
  {
    assert [f][1..] == [];
    assert SourcePath(root, [f]) == SourcePath(PosixPath.Join(root, f), []);
    assert RelPath([f]) == f;
  }

  /** A path inside a non-ignored sub-directory extends to a path inside its
      parent. */
  lemma DirStep(t: Tree, d: Tree, q: seq<string>, ignore: seq<string>)
    requires t.Dir? && d in t.children && d.Dir? && d.name !in ignore
    requires FileAt(d, q) && Unignored(q, ignore)
    ensures FileAt(t, [d.name] + q) && Unignored([d.name] + q, ignore)
  {
    var p := [d.name] + q;
    assert p[0] == d.name && p[1..] == q;
    forall i | 0 <= i < |p| ensures p[i] !in ignore {
      if i > 0 {
        assert p[i] == q[i - 1];
      }
    }
  }

  /** A selected entry of a non-ignored sub-directory is a selected entry
      of its parent. */
  lemma LiftFromSubdir(t: Tree, d: Tree, root: string, arc: string, ignore: seq<string>, e: Entry)
    requires t.Dir? && d in t.children && d.Dir? && d.name !in ignore
    requires exists q :: (FileAt(d, q) && Unignored(q, ignore)
      && e == EntryFor(PosixPath.Join(root, d.name), arc + [PosixPath.Sep] + d.name, q))
    ensures exists p :: FileAt(t, p) && Unignored(p, ignore) && e == EntryFor(root, arc, p)
  {
    var q :| FileAt(d, q) && Unignored(q, ignore)
      && e == EntryFor(PosixPath.Join(root, d.name), arc + [PosixPath.Sep] + d.name, q);
    DirStep(t, d, q, ignore);
    EntryForStep(root, arc, d.name, q);
  }

  /** Soundness: in a real tree every entry written is the entry of a file
      reachable along a path none of whose components, directory or file,
      is ignored. */
  lemma {:induction false} WrittenIsSelected(t: Tree, root: string, arc: string,
                                             ignore: seq<string>, e: Entry)
    requires WellFormed(t)
    requires e in WriteTree(t, root, arc, ignore)
    ensures exists p :: FileAt(t, p) && Unignored(p, ignore) && e == EntryFor(root, arc, p)
    decreases t
  {
    match t
    case Dir(_, cs) =>
      var ds := Prune(SubDirs(cs), ignore);
      if e in WriteFiles(FileNames(cs), root, arc, ignore) {
        WriteFilesMember(FileNames(cs), root, arc, ignore, e);
        var f :| f in FileNames(cs) && f !in ignore && e == Entry(PosixPath.Join(root, f), arc + [PosixPath.Sep] + f);
        FileStep(t, root, arc, ignore, f);
      } else {
        SubdirsMember(t, ds, root, arc, ignore, e);
        var k :| 0 <= k < |ds|
          && e in WriteTree(ds[k], PosixPath.Join(root, ds[k].name), arc + [PosixPath.Sep] + ds[k].name, ignore);
        var d := ds[k];
        VisitedSubdir(t, d, ignore);
        WrittenIsSelected(d, PosixPath.Join(root, d.name), arc + [PosixPath.Sep] + d.name, ignore, e);
        LiftFromSubdir(t, d, root, arc, ignore, e);
      }
  }

  lemma UnignoredTail(p: seq<string>, ignore: seq<string>)
    requires |p| >= 1 && Unignored(p, ignore)
    ensures p[0] !in ignore && Unignored(p[1..], ignore)
  {
    forall i | 0 <= i < |p[1..]| ensures p[1..][i] !in ignore {
      assert p[1..][i] == p[i + 1];
    }
  }

  /** Completeness: every file reachable along a path with no ignored
      component is written. This holds for any tree, and the root's own
      name is never compared with the ignore list. */
  lemma {:induction false} SelectedIsWritten(t: Tree, root: string, arc: string,
                                             ignore: seq<string>, p: seq<string>)
    requires FileAt(t, p) && Unignored(p, ignore)
    ensures EntryFor(root, arc, p) in WriteTree(t, root, arc, ignore)
    decreases t
  {
    var cs := t.children;
    if |p| == 1 {
      assert p[0] in FileNames(cs) && p[0] !in ignore;
      WriteFilesHas(FileNames(cs), root, arc, ignore, p[0]);
      FileStep(t, root, arc, ignore, p[0]);
      assert p == [p[0]];
    } else {
      var c :| c in cs && c.Dir? && c.name == p[0] && FileAt(c, p[1..]);
      UnignoredTail(p, ignore);
      var ds := Prune(SubDirs(cs), ignore);
      assert c in ds;
      SelectedIsWritten(c, PosixPath.Join(root, c.name), arc + [PosixPath.Sep] + c.name, ignore, p[1..]);
      EntryForStep(root, arc, c.name, p[1..]);
      assert [p[0]] + p[1..] == p;
      SubdirsHas(t, ds, root, arc, ignore, c, EntryFor(root, arc, p));
    }
  }

  /** The archive holds exactly the selected files of a real source tree,
      each named by the source directory's name, a separator and its path
      relative to the source directory. */
  lemma TreeEntriesExact(fpath: string, tree: Tree, ignore: seq<string>)
    requires WellFormed(tree)
    ensures forall e :: e in TreeEntries(fpath, tree, ignore) ==>
      exists p :: FileAt(tree, p) && Unignored(p, ignore) && e == EntryFor(fpath, tree.name, p)
    ensures forall p :: FileAt(tree, p) && Unignored(p, ignore) ==>
      EntryFor(fpath, tree.name, p) in TreeEntries(fpath, tree, ignore)
  {
    forall e | e in TreeEntries(fpath, tree, ignore)
      ensures exists p :: FileAt(tree, p) && Unignored(p, ignore) && e == EntryFor(fpath, tree.name, p)
    {
      WrittenIsSelected(tree, fpath, tree.name, ignore, e);
    }
    forall p | FileAt(tree, p) && Unignored(p, ignore)
      ensures EntryFor(fpath, tree.name, p) in TreeEntries(fpath, tree, ignore)
    {
      SelectedIsWritten(tree, fpath, tree.name, ignore, p);
    }
  }

  /** The root directory is never compared with the ignore list: a source
      directory whose own name is ignored still has its files archived. */
  lemma RootNeverPruned(fpath: string, name: string, f: string, cs: seq<Tree>,
                        ignore: seq<string>)
    requires name in ignore && File(f) in cs && f !in ignore
    ensures Entry(PosixPath.Join(fpath, f), name + [PosixPath.Sep] + f)
         in TreeEntries(fpath, Dir(name, cs), ignore)
  {
    var t := Dir(name, cs);
    assert f in FileNames(cs);
    FileStep(t, fpath, name, ignore, f);
    SelectedIsWritten(t, fpath, name, ignore, [f]);
  }
}
