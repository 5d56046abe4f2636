/** Worked examples: a whole backup run on small trees, and one archive
    name. */
module Scenarios {
  import opened FileTree
  import opened Pruning
  import opened Archive
  import PosixPath
  import Decimal
  import Timestamp

  /** A one-digit field gets a single leading zero. */
  lemma OneDigitPad(n: nat)
    requires n < 10
    ensures Decimal.ZeroPad(n, 2) == ['0', Decimal.DigitChar(n)]
  {
    assert Decimal.Zeros(1) == ['0'];
  }

  lemma YearPad()
    ensures Decimal.ZeroPad(2024, 4) == "2024"
  {
    assert Decimal.Digits(2) == "2";
    assert Decimal.Digits(20) == "20";
    assert Decimal.Digits(202) == "202";
    assert Decimal.Digits(2024) == "2024";
  }

  lemma ArchivePathOf(name: string, dt: Timestamp.DateTime, stamp: string)
    requires Timestamp.Format(dt) == stamp
    ensures Timestamp.ArchivePath(name, dt) == "./temp/" + (name + "-" + stamp + ".zip")
  {
    assert Timestamp.ArchiveName(name, dt) == name + "-" + stamp + ".zip";
  }

  lemma FormatExample()
    ensures Timestamp.Format(Timestamp.DateTime(2024, 3, 5, 9, 7)) == "05-03-2024-09:07"
  {
    OneDigitPad(5);
    OneDigitPad(3);
    OneDigitPad(9);
    OneDigitPad(7);
    YearPad();
  }

  /** `strftime("%d-%m-%Y-%H:%M")` of 5 March 2024, 09:07, and the path
      built from it. */
  lemma ArchivePathExample()
    ensures Timestamp.ArchivePath("proj", Timestamp.DateTime(2024, 3, 5, 9, 7))
         == "./temp/proj-05-03-2024-09:07.zip"
  {
    FormatExample();
    ArchivePathOf("proj", Timestamp.DateTime(2024, 3, 5, 9, 7), "05-03-2024-09:07");
    ExamplePathText();
  }

  lemma ExamplePathText()
    ensures "./temp/" + ("proj" + "-" + "05-03-2024-09:07" + ".zip") == "./temp/proj-05-03-2024-09:07.zip"
  {
  }

  lemma OneFile(f: string, root: string, arc: string, ignore: seq<string>)
    ensures WriteFiles([f], root, arc, ignore)
         == if f in ignore then [] else [Entry(PosixPath.Join(root, f), arc + [PosixPath.Sep] + f)]
  {
    assert [f][1..] == [];
  }

  lemma TwoFiles(f: string, g: string, root: string, arc: string, ignore: seq<string>)
    ensures WriteFiles([f, g], root, arc, ignore)
         == WriteFiles([f], root, arc, ignore) + WriteFiles([g], root, arc, ignore)
  {
    assert [f, g][1..] == [g];
    OneFile(f, root, arc, ignore);
  }

  /** One step of the walk: a directory's own files, then its surviving
      sub-directories. */
  lemma WalkOf(t: Tree, root: string, arc: string, ignore: seq<string>,
               files: seq<string>, ds: seq<Tree>)
    requires t.Dir? && FileNames(t.children) == files && Prune(SubDirs(t.children), ignore) == ds
    ensures forall d :: d in ds ==> d in t.children
    ensures WriteTree(t, root, arc, ignore)
         == WriteFiles(files, root, arc, ignore) + WriteSubdirs(t, ds, root, arc, ignore)
  {
  }

  // First example: directory `p` holding files `a` and `b` and a directory
  // `c` that is ignored; one additional file `t/d`.
  //
  // Each example is proved in small steps: the facts about the literal tree
  // (its listing and pruning) in one lemma, the walk over those facts in
  // another, so that no single proof has to unfold literal strings and the
  // whole walk at once.

  lemma FirstListing(cs: seq<Tree>)
    requires cs == [File("a"), File("b"), Dir("c", [File("x")])]
    ensures FileNames(cs) == ["a", "b"] && SubDirs(cs) == [cs[2]]
  {
    assert cs[1..][1..][1..] == [];
    assert FileNames(cs[1..][1..]) == [] && SubDirs(cs[1..][1..]) == [cs[2]];
    assert FileNames(cs[1..]) == ["b"] && SubDirs(cs[1..]) == [cs[2]];
  }

  lemma FirstFiles(ignore: seq<string>)
    requires ignore == ["c"]
    ensures WriteFiles(["a", "b"], "p/", "p", ignore) == [Entry("p/a", "p/a"), Entry("p/b", "p/b")]
  {
    assert "a" !in ignore && "b" !in ignore;
    assert PosixPath.Join("p/", "a") == "p/a" && PosixPath.Join("p/", "b") == "p/b";
    assert "p" + [PosixPath.Sep] + "a" == "p/a" && "p" + [PosixPath.Sep] + "b" == "p/b";
    TwoFiles("a", "b", "p/", "p", ignore);
    OneFile("a", "p/", "p", ignore);
    OneFile("b", "p/", "p", ignore);
  }

  lemma FirstExtra()
    ensures ExtraEntries(["t/d"]) == [Entry("t/d", "d")]
  {
    PosixPath.BasenameOfJoin("t", "d");
  }

  /** What the walk sees at the top of the first example. */
  lemma FirstFacts(tree: Tree, ignore: seq<string>)
    requires tree == Dir("p", [File("a"), File("b"), Dir("c", [File("x")])])
    requires ignore == ["c"]
    ensures FileNames(tree.children) == ["a", "b"] && Prune(SubDirs(tree.children), ignore) == []
  {
    FirstListing(tree.children);
    assert RemoveFirst([tree.children[2]], "c") == [];
  }

  lemma FirstTree(tree: Tree, ignore: seq<string>)
    requires tree.Dir? && tree.name == "p" && ignore == ["c"]
    requires FileNames(tree.children) == ["a", "b"] && Prune(SubDirs(tree.children), ignore) == []
    ensures TreeEntries("p/", tree, ignore) == [Entry("p/a", "p/a"), Entry("p/b", "p/b")]
  {
    WalkOf(tree, "p/", "p", ignore, ["a", "b"], []);
    FirstFiles(ignore);
  }

  /** Directory `p` with files `a` and `b` and an ignored directory `c`,
      archived with the additional file `t/d`: `c` is never entered, the two
      files are stored under `p/`, and `t/d` follows under its base name
      `d`. */
  lemma IgnoredDirExample()
    ensures var tree := Dir("p", [File("a"), File("b"), Dir("c", [File("x")])]);
      var b := CreateBackup("p/", tree, "p", Timestamp.DateTime(2024, 3, 5, 9, 7), ["t/d"], ["c"]);
      && b.progressMax == 3
      && b.entries == [Entry("p/a", "p/a"), Entry("p/b", "p/b"), Entry("t/d", "d")]
  {
    var tree := Dir("p", [File("a"), File("b"), Dir("c", [File("x")])]);
    FirstFacts(tree, ["c"]);
    FirstTree(tree, ["c"]);
    FirstExtra();
  }

  // Second example: directory `s` holding a directory `i` (with files `l`
  // and `e`) and a file `h`; the file name `e` is ignored.

  lemma SecondListing(cs: seq<Tree>)
    requires |cs| == 2 && cs[0].Dir? && cs[1] == File("h")
    ensures FileNames(cs) == ["h"] && SubDirs(cs) == [cs[0]]
  {
    assert cs[1..][1..] == [];
    assert FileNames(cs[1..]) == ["h"] && SubDirs(cs[1..]) == [];
  }

  lemma InnerListing(cs: seq<Tree>)
    requires cs == [File("l"), File("e")]
    ensures FileNames(cs) == ["l", "e"] && SubDirs(cs) == []
  {
    assert cs[1..][1..] == [];
    assert FileNames(cs[1..]) == ["e"] && SubDirs(cs[1..]) == [];
  }

  lemma SecondInner(i: Tree, ignore: seq<string>)
    requires i.Dir? && ignore == ["e"]
    requires FileNames(i.children) == ["l", "e"] && SubDirs(i.children) == []
    ensures WriteTree(i, "s/i", "s/i", ignore) == [Entry("s/i/l", "s/i/l")]
  {
    assert RemoveFirst([], "e") == [];
    assert Prune([], ignore) == [];
    WalkOf(i, "s/i", "s/i", ignore, ["l", "e"], []);
    assert "l" !in ignore;
    assert PosixPath.Join("s/i", "l") == "s/i/l" && "s/i" + [PosixPath.Sep] + "l" == "s/i/l";
    TwoFiles("l", "e", "s/i", "s/i", ignore);
    OneFile("l", "s/i", "s/i", ignore);
    OneFile("e", "s/i", "s/i", ignore);
  }

  lemma SecondSubdirs(tree: Tree, i: Tree, ignore: seq<string>)
    requires tree.Dir? && i in tree.children && i.name == "i"
    requires WriteTree(i, "s/i", "s/i", ignore) == [Entry("s/i/l", "s/i/l")]
    ensures WriteSubdirs(tree, [i], "s", "s", ignore) == [Entry("s/i/l", "s/i/l")]
  {
    assert [i][1..] == [];
    assert PosixPath.Join("s", "i") == "s/i" && "s" + [PosixPath.Sep] + "i" == "s/i";
  }

  lemma SecondFile(ignore: seq<string>)
    requires ignore == ["e"]
    ensures WriteFiles(["h"], "s", "s", ignore) == [Entry("s/h", "s/h")]
  {
    assert "h" !in ignore;
    assert PosixPath.Join("s", "h") == "s/h" && "s" + [PosixPath.Sep] + "h" == "s/h";
    OneFile("h", "s", "s", ignore);
  }

  /** What the walk sees at the top of the second example. */
  lemma SecondFacts(tree: Tree, ignore: seq<string>)
    requires tree == Dir("s", [Dir("i", [File("l"), File("e")]), File("h")])
    requires ignore == ["e"]
    ensures FileNames(tree.children) == ["h"]
    ensures Prune(SubDirs(tree.children), ignore) == [tree.children[0]]
    ensures tree.children[0].name == "i"
    ensures WriteTree(tree.children[0], "s/i", "s/i", ignore) == [Entry("s/i/l", "s/i/l")]
  {
    var i := tree.children[0];
    SecondListing(tree.children);
    InnerListing(i.children);
    assert RemoveFirst([i], "e") == [i];
    SecondInner(i, ignore);
  }

  lemma SecondTree(tree: Tree, i: Tree, ignore: seq<string>)
    requires tree.Dir? && tree.name == "s" && ignore == ["e"]
    requires i in tree.children && i.name == "i"
    requires FileNames(tree.children) == ["h"] && Prune(SubDirs(tree.children), ignore) == [i]
    requires WriteTree(i, "s/i", "s/i", ignore) == [Entry("s/i/l", "s/i/l")]
    ensures TreeEntries("s", tree, ignore) == [Entry("s/h", "s/h"), Entry("s/i/l", "s/i/l")]
  {
    WalkOf(tree, "s", "s", ignore, ["h"], [i]);
    SecondSubdirs(tree, i, ignore);
    SecondFile(ignore);
  }

  /** Directory `s` holding a directory `i` (files `l` and `e`) and a file
      `h`, with `e` ignored: the files of `s` come before the walk into `i`,
      and the ignored file name is skipped below the root too. */
  lemma NestedExample()
    ensures var tree := Dir("s", [Dir("i", [File("l"), File("e")]), File("h")]);
      var b := CreateBackup("s", tree, "s", Timestamp.DateTime(1999, 12, 31, 23, 59), [], ["e"]);
      && b.progressMax == 2
      && b.entries == [Entry("s/h", "s/h"), Entry("s/i/l", "s/i/l")]
  {
    var tree := Dir("s", [Dir("i", [File("l"), File("e")]), File("h")]);
    SecondFacts(tree, ["e"]);
    SecondTree(tree, tree.children[0], ["e"]);
    assert ExtraEntries([]) == [];
  }
}
