/** The in-place pruning both walks of `create_backup` perform at every
    directory: `for i in ignore: if i in dirs: dirs.remove(i)`. Removing a
    name from `dirs` stops `os.walk` from descending into it. */
module Pruning {
  import opened FileTree

  /** `if n in dirs: dirs.remove(n)`: the first directory called `n`, if
      there is one, leaves the list; the others keep their order. */
  function RemoveFirst(dirs: seq<Tree>, n: string): (r: seq<Tree>)
    ensures forall d :: d in r ==> d in dirs
    ensures forall d :: d in dirs && d.name != n ==> d in r
    ensures (exists d :: d in dirs && d.name == n) ==> |r| == |dirs| - 1
    ensures (forall d :: d in dirs ==> d.name != n) ==> r == dirs
  {
    if dirs == [] then []
    else if dirs[0].name == n then dirs[1..]
    else [dirs[0]] + RemoveFirst(dirs[1..], n)
  }

  /** The whole pruning loop, one ignore entry after the other. */
  function Prune(dirs: seq<Tree>, ignore: seq<string>): (r: seq<Tree>)
    ensures forall d :: d in r ==> d in dirs
    ensures forall d :: d in dirs && d.name !in ignore ==> d in r
    decreases |ignore|
  {
    if ignore == [] then dirs else Prune(RemoveFirst(dirs, ignore[0]), ignore[1..])
  }

  /** Reference definition: the directories whose name is not on the list,
      in their original order. */
  function KeptDirs(dirs: seq<Tree>, ignore: seq<string>): (r: seq<Tree>)
    ensures forall d :: d in r <==> d in dirs && d.name !in ignore
  {
    if dirs == [] then []
    else (if dirs[0].name in ignore then [] else [dirs[0]]) + KeptDirs(dirs[1..], ignore)
  }

  lemma {:induction false} KeptDirsDistinct(dirs: seq<Tree>, ignore: seq<string>)
    requires DistinctNames(dirs)
    ensures DistinctNames(KeptDirs(dirs, ignore))
  {
    if dirs != [] {
      var rest := KeptDirs(dirs[1..], ignore);
      KeptDirsDistinct(dirs[1..], ignore);
      if dirs[0].name !in ignore {
        var r := [dirs[0]] + rest;
        forall i, j | 0 <= i < j < |r| ensures r[i].name != r[j].name {
          if i == 0 {
            assert r[j] in dirs[1..];
            var k :| 0 <= k < |dirs[1..]| && dirs[1..][k] == r[j];
            assert dirs[k + 1] == r[j];
          } else {
            assert r[i] == rest[i - 1] && r[j] == rest[j - 1];
          }
        }
      }
    }
  }

  /** Filtering by two lists in turn is filtering by their concatenation. */
  lemma {:induction false} KeptDirsTwice(dirs: seq<Tree>, a: seq<string>, b: seq<string>)
    ensures KeptDirs(KeptDirs(dirs, a), b) == KeptDirs(dirs, a + b)
  {
    if dirs != [] {
      KeptDirsTwice(dirs[1..], a, b);
      var d := dirs[0];
      assert d.name in a + b <==> d.name in a || d.name in b;
      if d.name !in a {
        assert KeptDirs(dirs, a) == [d] + KeptDirs(dirs[1..], a);
        var ka := KeptDirs(dirs, a);
        assert ka[0] == d && ka[1..] == KeptDirs(dirs[1..], a);
        assert KeptDirs(ka, b)
            == (if d.name in b then [] else [d]) + KeptDirs(KeptDirs(dirs[1..], a), b);
      } else {
        assert KeptDirs(dirs, a) == [] + KeptDirs(dirs[1..], a) == KeptDirs(dirs[1..], a);
      }
      assert KeptDirs(dirs, a + b)
          == (if d.name in a + b then [] else [d]) + KeptDirs(dirs[1..], a + b);
    }
  }

  /** In a real directory, where names are unique, removing the first match
      removes every match. */
  lemma {:induction false} RemoveFirstDistinct(dirs: seq<Tree>, n: string)
    requires DistinctNames(dirs)
    ensures RemoveFirst(dirs, n) == KeptDirs(dirs, [n])
  {
    if dirs != [] {
      if dirs[0].name == n {
        assert forall d :: d in dirs[1..] ==> d.name != n by {
          forall d | d in dirs[1..] ensures d.name != n {
            var k :| 0 <= k < |dirs[1..]| && dirs[1..][k] == d;
            assert dirs[k + 1] == d;
          }
        }
        KeptDirsNone(dirs[1..], [n]);
      } else {
        RemoveFirstDistinct(dirs[1..], n);
      }
    }
  }

  lemma {:induction false} KeptDirsNone(dirs: seq<Tree>, ignore: seq<string>)
    requires forall d :: d in dirs ==> d.name !in ignore
    ensures KeptDirs(dirs, ignore) == dirs
  {
    if dirs != [] {
      KeptDirsNone(dirs[1..], ignore);
    }
  }

  /** In a real directory the pruning loop keeps exactly the sub-directories
      whose name is not on the ignore list, in listing order. */
  lemma {:induction false} PruneIsFilter(dirs: seq<Tree>, ignore: seq<string>)
    requires DistinctNames(dirs)
    ensures Prune(dirs, ignore) == KeptDirs(dirs, ignore)
    decreases |ignore|
  {
    if ignore == [] {
      KeptDirsNone(dirs, ignore);
    } else {
      var first := KeptDirs(dirs, [ignore[0]]);
      RemoveFirstDistinct(dirs, ignore[0]);
      KeptDirsDistinct(dirs, [ignore[0]]);
      PruneIsFilter(first, ignore[1..]);
      KeptDirsTwice(dirs, [ignore[0]], ignore[1..]);
      assert [ignore[0]] + ignore[1..] == ignore;
    }
  }
}
