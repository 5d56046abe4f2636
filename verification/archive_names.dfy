/** The names stored in the archive: every tree entry sits under the source
    directory's name, no two tree entries share a name in a real tree, and
    the additional files, stored under bare base names, come last and can
    never coincide with a tree entry. */
module ArchiveNames {
  import opened FileTree
  import opened Pruning
  import opened Archive
  import opened ArchiveSelection
  import PosixPath
  import Timestamp

  /** `s` lies below the archive directory `prefix`: it starts with `prefix`
      followed by a separator. */
  predicate Under(prefix: string, s: string) {
    |prefix| < |s| && s[..|prefix| + 1] == prefix + [PosixPath.Sep]
  }

  predicate DistinctArcnames(es: seq<Entry>) {
    forall i, j :: 0 <= i < j < |es| ==> es[i].arcname != es[j].arcname
  }

  lemma UnderNested(arc: string, n: string, s: string)
    requires Under(arc + [PosixPath.Sep] + n, s)
    ensures Under(arc, s)
  {
    var k := |arc| + 1;
    assert s[..k] == s[..|arc + [PosixPath.Sep] + n| + 1][..k];
    assert (arc + [PosixPath.Sep] + n + [PosixPath.Sep])[..k] == arc + [PosixPath.Sep];
  }

  /** Every archive name written below directory `arc` lies under it. */
  lemma {:induction false} ArcnameUnder(t: Tree, root: string, arc: string, ignore: seq<string>, e: Entry)
    requires e in WriteTree(t, root, arc, ignore)
    ensures Under(arc, e.arcname)
    decreases t
  {
    match t
    case Dir(_, cs) =>
      var ds := Prune(SubDirs(cs), ignore);
      if e in WriteFiles(FileNames(cs), root, arc, ignore) {
        WriteFilesMember(FileNames(cs), root, arc, ignore, e);
      } else {
        SubdirsMember(t, ds, root, arc, ignore, e);
        var k :| 0 <= k < |ds|
          && e in WriteTree(ds[k], PosixPath.Join(root, ds[k].name), arc + [PosixPath.Sep] + ds[k].name, ignore);
        assert ds[k] in cs;
        ArcnameUnder(ds[k], PosixPath.Join(root, ds[k].name), arc + [PosixPath.Sep] + ds[k].name, ignore, e);
        UnderNested(arc, ds[k].name, e.arcname);
      }
  }

  /** Names below two differently named entries of one directory differ. */
  lemma SegmentsDiffer(a: string, b: string, x: string, y: string)
    requires PosixPath.Sep !in a && PosixPath.Sep !in b && a != b
    ensures a + [PosixPath.Sep] + x != b + [PosixPath.Sep] + y
  {
    var u := a + [PosixPath.Sep] + x;
    var v := b + [PosixPath.Sep] + y;
    if |a| < |b| {
      assert u[|a|] == PosixPath.Sep && v[|a|] == b[|a|];
      assert b[|a|] in b;
    } else if |b| < |a| {
      assert v[|b|] == PosixPath.Sep && u[|b|] == a[|b|];
      assert a[|b|] in a;
    } else {
      assert u[..|a|] == a && v[..|b|] == b;
    }
  }

  lemma DifferentChildren(arc: string, a: string, b: string, s1: string, s2: string)
    requires PosixPath.Sep !in a && PosixPath.Sep !in b && a != b
    requires Under(arc + [PosixPath.Sep] + a, s1) && Under(arc + [PosixPath.Sep] + b, s2)
    ensures s1 != s2
  {
    var k := |arc| + 1;
    var u1 := s1[k..];
    var u2 := s2[k..];
    assert s1 == (arc + [PosixPath.Sep] + a) + [PosixPath.Sep] + s1[|arc + [PosixPath.Sep] + a| + 1..];
    assert s2 == (arc + [PosixPath.Sep] + b) + [PosixPath.Sep] + s2[|arc + [PosixPath.Sep] + b| + 1..];
    assert u1 == a + [PosixPath.Sep] + s1[|arc + [PosixPath.Sep] + a| + 1..];
    assert u2 == b + [PosixPath.Sep] + s2[|arc + [PosixPath.Sep] + b| + 1..];
    SegmentsDiffer(a, b, s1[|arc + [PosixPath.Sep] + a| + 1..], s2[|arc + [PosixPath.Sep] + b| + 1..]);
  }

  /** A file's name never equals a name below a sibling directory. */
  lemma FileVsChild(arc: string, f: string, b: string, s: string)
    requires PosixPath.Sep !in f
    requires Under(arc + [PosixPath.Sep] + b, s)
    ensures arc + [PosixPath.Sep] + f != s
  {
    var k := |arc| + 1 + |b|;
    assert s[k] == (arc + [PosixPath.Sep] + b + [PosixPath.Sep])[k] == PosixPath.Sep;
    if |f| > |b| {
      assert (arc + [PosixPath.Sep] + f)[k] == f[|b|];
      assert f[|b|] in f;
    }
  }

  lemma DistinctConcat(a: seq<Entry>, b: seq<Entry>)
    requires DistinctArcnames(a) && DistinctArcnames(b)
    requires forall x, y :: x in a && y in b ==> x.arcname != y.arcname
    ensures DistinctArcnames(a + b)
  {
    var c := a + b;
    forall i, j | 0 <= i < j < |c| ensures c[i].arcname != c[j].arcname {
      if j < |a| {
        assert c[i] == a[i] && c[j] == a[j];
      } else if i >= |a| {
        assert c[i] == b[i - |a|] && c[j] == b[j - |a|];
      } else {
        assert c[i] in a && c[j] in b;
      }
    }
  }

  lemma {:induction false} FilesDistinct(files: seq<string>, root: string, arc: string, ignore: seq<string>)
    requires DistinctStrings(files)
    ensures DistinctArcnames(WriteFiles(files, root, arc, ignore))
  {
    if files != [] {
      var f0 := files[0];
      var rest := WriteFiles(files[1..], root, arc, ignore);
      assert DistinctStrings(files[1..]) by {
        forall i, j | 0 <= i < j < |files[1..]| ensures files[1..][i] != files[1..][j] {
          assert files[1..][i] == files[i + 1] && files[1..][j] == files[j + 1];
        }
      }
      FilesDistinct(files[1..], root, arc, ignore);
      var head := if f0 !in ignore then [Entry(PosixPath.Join(root, f0), arc + [PosixPath.Sep] + f0)] else [];
      forall x, y | x in head && y in rest ensures x.arcname != y.arcname {
        WriteFilesMember(files[1..], root, arc, ignore, y);
        var f :| f in files[1..] && f !in ignore && y == Entry(PosixPath.Join(root, f), arc + [PosixPath.Sep] + f);
        var j :| 0 <= j < |files[1..]| && files[1..][j] == f;
        assert files[j + 1] == f;
        assert (arc + [PosixPath.Sep] + f)[|arc| + 1..] == f;
        assert (arc + [PosixPath.Sep] + f0)[|arc| + 1..] == f0;
      }
      DistinctConcat(head, rest);
    }
  }

  /** A file name in a real directory carries no separator. */
  lemma FileNameOk(t: Tree, f: string)
    requires WellFormed(t) && t.Dir? && f in FileNames(t.children)
    ensures PosixPath.Sep !in f
  {
    var i :| 0 <= i < |t.children| && t.children[i] == File(f);
  }

  /** The pruned sub-directory list of a real directory has distinct
      names. */
  lemma VisitedDistinct(t: Tree, ignore: seq<string>)
    requires WellFormed(t) && t.Dir?
    ensures DistinctNames(Prune(SubDirs(t.children), ignore))
  {
    DistinctNamesOfSubDirs(t.children);
    PruneIsFilter(SubDirs(t.children), ignore);
    KeptDirsDistinct(SubDirs(t.children), ignore);
  }

  /** In a real tree no two entries written below a directory share an
      archive name. */
  lemma {:induction false} TreeDistinct(t: Tree, root: string, arc: string, ignore: seq<string>)
    requires WellFormed(t)
    ensures DistinctArcnames(WriteTree(t, root, arc, ignore))
    decreases t, 1
  {
    match t
    case File(_) =>
    case Dir(_, cs) =>
      var ds := Prune(SubDirs(cs), ignore);
      var files := WriteFiles(FileNames(cs), root, arc, ignore);
      var subs := WriteSubdirs(t, ds, root, arc, ignore);
      DistinctFileNames(cs);
      FilesDistinct(FileNames(cs), root, arc, ignore);
      VisitedDistinct(t, ignore);
      SubdirsDistinct(t, ds, root, arc, ignore);
      forall x, y | x in files && y in subs ensures x.arcname != y.arcname {
        WriteFilesMember(FileNames(cs), root, arc, ignore, x);
        var f :| f in FileNames(cs) && f !in ignore && x == Entry(PosixPath.Join(root, f), arc + [PosixPath.Sep] + f);
        FileNameOk(t, f);
        SubdirsMember(t, ds, root, arc, ignore, y);
        var k :| 0 <= k < |ds|
          && y in WriteTree(ds[k], PosixPath.Join(root, ds[k].name), arc + [PosixPath.Sep] + ds[k].name, ignore);
        ArcnameUnder(ds[k], PosixPath.Join(root, ds[k].name), arc + [PosixPath.Sep] + ds[k].name, ignore, y);
        FileVsChild(arc, f, ds[k].name, y.arcname);
      }
      DistinctConcat(files, subs);
  }

  lemma {:induction false} SubdirsDistinct(parent: Tree, ds: seq<Tree>, root: string, arc: string,
                                           ignore: seq<string>)
    requires parent.Dir? && WellFormed(parent)
    requires forall d :: d in ds ==> d in parent.children
    requires DistinctNames(ds)
    ensures DistinctArcnames(WriteSubdirs(parent, ds, root, arc, ignore))
    decreases parent, 0, |ds|
  {
    if ds != [] {
      var d := ds[0];
      assert d in parent.children;
      var i :| 0 <= i < |parent.children| && parent.children[i] == d;
      var first := WriteTree(d, PosixPath.Join(root, d.name), arc + [PosixPath.Sep] + d.name, ignore);
      var rest := WriteSubdirs(parent, ds[1..], root, arc, ignore);
      TreeDistinct(d, PosixPath.Join(root, d.name), arc + [PosixPath.Sep] + d.name, ignore);
      assert DistinctNames(ds[1..]) by {
        forall a, b | 0 <= a < b < |ds[1..]| ensures ds[1..][a].name != ds[1..][b].name {
          assert ds[1..][a] == ds[a + 1] && ds[1..][b] == ds[b + 1];
        }
      }
      SubdirsDistinct(parent, ds[1..], root, arc, ignore);
      forall x, y | x in first && y in rest ensures x.arcname != y.arcname {
        ArcnameUnder(d, PosixPath.Join(root, d.name), arc + [PosixPath.Sep] + d.name, ignore, x);
        SubdirsMember(parent, ds[1..], root, arc, ignore, y);
        var k :| 0 <= k < |ds[1..]|
          && y in WriteTree(ds[1..][k], PosixPath.Join(root, ds[1..][k].name), arc + [PosixPath.Sep] + ds[1..][k].name, ignore);
        var d' := ds[1..][k];
        assert d' == ds[k + 1];
        assert d' in parent.children;
        var i' :| 0 <= i' < |parent.children| && parent.children[i'] == d';
        ArcnameUnder(d', PosixPath.Join(root, d'.name), arc + [PosixPath.Sep] + d'.name, ignore, y);
        DifferentChildren(arc, d.name, d'.name, x.arcname, y.arcname);
      }
      DistinctConcat(first, rest);
    }
  }

  /** Every selected file of a real source tree is written exactly once, and
      no other entry shares its archive name. */
  lemma WrittenExactlyOnce(fpath: string, tree: Tree, ignore: seq<string>, p: seq<string>)
    requires WellFormed(tree) && FileAt(tree, p) && Unignored(p, ignore)
    ensures var es := TreeEntries(fpath, tree, ignore);
      exists i :: 0 <= i < |es| && es[i] == EntryFor(fpath, tree.name, p)
        && forall j :: 0 <= j < |es| && es[j].arcname == es[i].arcname ==> j == i
  {
    var es := TreeEntries(fpath, tree, ignore);
    SelectedIsWritten(tree, fpath, tree.name, ignore, p);
    TreeDistinct(tree, fpath, tree.name, ignore);
    var i :| 0 <= i < |es| && es[i] == EntryFor(fpath, tree.name, p);
    forall j | 0 <= j < |es| && j != i ensures es[j].arcname != es[i].arcname {
      if j < i {
        assert es[j].arcname != es[i].arcname;
      } else {
        assert es[i].arcname != es[j].arcname;
      }
    }
  }

  /** A name below a directory never equals a name without separators. */
  lemma UnderHasSep(prefix: string, s: string, x: string)
    requires Under(prefix, s) && PosixPath.Sep !in x
    ensures s != x
  {
    assert s[..|prefix| + 1][|prefix|] == PosixPath.Sep;
    assert s[|prefix|] in s;
  }

  lemma EntriesSplit(fpath: string, tree: Tree, name: string, now: Timestamp.DateTime,
                     additional: seq<string>, ignore: seq<string>)
    ensures CreateBackup(fpath, tree, name, now, additional, ignore).entries
         == TreeEntries(fpath, tree, ignore) + ExtraEntries(additional)
  {
  }

  lemma TreeEntriesUnder(fpath: string, tree: Tree, ignore: seq<string>)
    ensures forall i :: 0 <= i < |TreeEntries(fpath, tree, ignore)| ==>
      Under(tree.name, TreeEntries(fpath, tree, ignore)[i].arcname)
  {
    var te := TreeEntries(fpath, tree, ignore);
    forall i | 0 <= i < |te| ensures Under(tree.name, te[i].arcname) {
      ArcnameUnder(tree, fpath, tree.name, ignore, te[i]);
    }
  }

  /** Base names never collide with names under a directory prefix. */
  lemma ExtrasApart(prefix: string, te: seq<Entry>, additional: seq<string>)
    requires forall i :: 0 <= i < |te| ==> Under(prefix, te[i].arcname)
    ensures var es := te + ExtraEntries(additional);
      forall i, j :: 0 <= i < |te| <= j < |es| ==> es[i].arcname != es[j].arcname
  {
    var ex := ExtraEntries(additional);
    var es := te + ex;
    forall i, j | 0 <= i < |te| <= j < |es| ensures es[i].arcname != es[j].arcname {
      assert es[i] == te[i] && es[j] == ex[j - |te|];
      UnderHasSep(prefix, te[i].arcname, ex[j - |te|].arcname);
    }
  }

  /** The layout of the whole archive: the tree entries come first, each
      under the source directory's name, and none of the additional files
      that follow them (see `CreateBackup`) can take the name of a tree
      entry. */
  lemma BackupLayout(fpath: string, tree: Tree, name: string, now: Timestamp.DateTime,
                     additional: seq<string>, ignore: seq<string>)
    ensures var es := CreateBackup(fpath, tree, name, now, additional, ignore).entries;
      var n := |es| - |additional|;
      && (forall i :: 0 <= i < n ==> Under(tree.name, es[i].arcname))
      && (forall i, j :: 0 <= i < n <= j < |es| ==> es[i].arcname != es[j].arcname)
  {
    var te := TreeEntries(fpath, tree, ignore);
    EntriesSplit(fpath, tree, name, now, additional, ignore);
    TreeEntriesUnder(fpath, tree, ignore);
    ExtrasApart(tree.name, te, additional);
  }
}
