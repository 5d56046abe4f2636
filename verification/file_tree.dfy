/** The source directory as an immutable value, and the reference notion of
    "a file reachable along a path" that the archive is specified against. */
module FileTree {
  import PosixPath

  /** A directory entry: a regular file or a directory with its entries in
      the order the directory listing yields them. */
  datatype Tree = File(name: string) | Dir(name: string, children: seq<Tree>)

  /** What `os.walk` reports as the `files` of a directory: the names of its
      non-directory entries, in listing order. */
  function FileNames(cs: seq<Tree>): (r: seq<string>)
    ensures forall f :: f in r <==> File(f) in cs
    ensures |r| <= |cs|
  {
    if cs == [] then []
    else (if cs[0].File? then [cs[0].name] else []) + FileNames(cs[1..])
  }

  /** What `os.walk` reports as the `dirs` of a directory: its directory
      entries, in listing order. */
  function SubDirs(cs: seq<Tree>): (r: seq<Tree>)
    ensures forall d :: d in r <==> d in cs && d.Dir?
    ensures |r| <= |cs|
  {
    if cs == [] then []
    else (if cs[0].Dir? then [cs[0]] else []) + SubDirs(cs[1..])
  }

  /** A name a directory entry can carry: non-empty, without a separator. */
  predicate NameOk(n: string) {
    n != [] && PosixPath.Sep !in n
  }

  predicate DistinctNames(cs: seq<Tree>) {
    forall i, j :: 0 <= i < j < |cs| ==> cs[i].name != cs[j].name
  }

  predicate DistinctStrings(s: seq<string>) {
    forall i, j :: 0 <= i < j < |s| ==> s[i] != s[j]
  }

  /** What any real directory tree satisfies: entries of one directory have
      distinct, separator-free names. The root's own name is not
      constrained. */
  predicate WellFormed(t: Tree)
    decreases t
  {
    match t
    case File(_) => true
    case Dir(_, cs) =>
      && DistinctNames(cs)
      && forall i :: 0 <= i < |cs| ==> NameOk(cs[i].name) && WellFormed(cs[i])
  }

  /** `p` leads from directory `t` through sub-directories to a regular
      file: all components but the last name directories, the last names a
      file. */
  predicate FileAt(t: Tree, p: seq<string>)
    decreases |p|
  {
    && t.Dir?
    && |p| >= 1
    && if |p| == 1 then File(p[0]) in t.children
       else exists c :: c in t.children && c.Dir? && c.name == p[0] && FileAt(c, p[1..])
  }

  /** No component of `p`, directory or file, is a name on the ignore list. */
  predicate Unignored(p: seq<string>, ignore: seq<string>) {
    forall k :: 0 <= k < |p| ==> p[k] !in ignore
  }

  /** The components of `p` joined by the separator, as a relative path. */
  function RelPath(p: seq<string>): string
    decreases |p|
  {
    if |p| == 0 then []
    else if |p| == 1 then p[0]
    else p[0] + [PosixPath.Sep] + RelPath(p[1..])
  }

  /** The on-disk path of `p` below `root`, joined one component at a time
      as the walk does. */
  function SourcePath(root: string, p: seq<string>): string
    decreases |p|
  {
    if p == [] then root else SourcePath(PosixPath.Join(root, p[0]), p[1..])
  }

  lemma DistinctNamesOfSubDirs(cs: seq<Tree>)
    requires DistinctNames(cs)
    ensures DistinctNames(SubDirs(cs))
  {
    if cs != [] {
      DistinctNamesOfSubDirs(cs[1..]);
      var rest := SubDirs(cs[1..]);
      if cs[0].Dir? {
        forall d | d in rest ensures d.name != cs[0].name {
          var j :| 0 <= j < |cs[1..]| && cs[1..][j] == d;
          assert cs[j + 1] == d;
        }
        var r := [cs[0]] + rest;
        forall i, j | 0 <= i < j < |r| ensures r[i].name != r[j].name {
          if i == 0 {
            assert r[j] in rest;
          } else {
            assert r[i] == rest[i - 1] && r[j] == rest[j - 1];
          }
        }
      }
    }
  }

  lemma DistinctFileNames(cs: seq<Tree>)
    requires DistinctNames(cs)
    ensures DistinctStrings(FileNames(cs))
  {
    if cs != [] {
      DistinctFileNames(cs[1..]);
      var rest := FileNames(cs[1..]);
      if cs[0].File? {
        forall f | f in rest ensures f != cs[0].name {
          var j :| 0 <= j < |cs[1..]| && cs[1..][j] == File(f);
          assert cs[j + 1] == File(f);
        }
        var r := [cs[0].name] + rest;
        forall i, j | 0 <= i < j < |r| ensures r[i] != r[j] {
          if i == 0 {
            assert r[j] in rest;
          } else {
            assert r[i] == rest[i - 1] && r[j] == rest[j - 1];
          }
        }
      }
    }
  }
}
