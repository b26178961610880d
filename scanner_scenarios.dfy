/** Concrete trees and what the scan reports for them. */
module ScannerScenarios {
  import opened Wrappers
  import opened FileTree
  import opened Scanner

  const Mtime := Timestamp(1700000000)

  /** Metadata of a node that can be read, with the given length. */
  function Readable(len: nat): Option<Metadata>
  {
    Some(Metadata(len, Some(Mtime)))
  }

  function RegularFile(name: string, len: nat): Node
  {
    File(name, Readable(len), false)
  }

  function Folder(name: string, children: seq<Node>): Node
  {
    Dir(name, Readable(0), false, children)
  }

  /** The walk of a directory holding one child after another. */
  lemma WalkChildrenCons(dir: Path, c: Node, rest: seq<Node>)
    ensures WalkChildren(dir, [c] + rest) == Walk(dir + [c.name], c) + WalkChildren(dir, rest)
  {
    assert ([c] + rest)[0] == c && ([c] + rest)[1..] == rest;
  }

  /** A walk whose entries are no candidates contributes nothing to the scan. */
  lemma {:induction false} NoCandidatesReportNothing(w: seq<Entry>)
    requires forall i :: 0 <= i < |w| ==> !IsCandidate(w[i])
    ensures Reported(w) == []
    decreases |w|
  {
    if w != [] {
      NoCandidatesReportNothing(w[..|w| - 1]);
    }
  }

  function Lib(): Node { Folder("lib", [RegularFile("b.py", 10)]) }

  /** `env/` with an empty marker file, a 5-byte file and `lib/` holding a 10-byte file. */
  function EnvTree(): Node
  {
    Folder("env", [RegularFile("pyvenv.cfg", 0), RegularFile("a.py", 5), Lib()])
  }

  lemma EnvTreeWalk()
    ensures Walk(["env"], EnvTree()) ==
      [Entry(["env"], EnvTree())] +
      [Entry(["env", "pyvenv.cfg"], RegularFile("pyvenv.cfg", 0)),
       Entry(["env", "a.py"], RegularFile("a.py", 5)),
       Entry(["env", "lib"], Lib()),
       Entry(["env", "lib", "b.py"], RegularFile("b.py", 10))]
  {
    var b := RegularFile("b.py", 10);
    assert ["env"] + ["lib"] == ["env", "lib"];
    assert ["env", "lib"] + ["b.py"] == ["env", "lib", "b.py"];
    assert ["env"] + ["a.py"] == ["env", "a.py"];
    assert ["env"] + ["pyvenv.cfg"] == ["env", "pyvenv.cfg"];
    WalkChildrenCons(["env", "lib"], b, []);
    WalkChildrenCons(["env"], Lib(), []);
    WalkChildrenCons(["env"], RegularFile("a.py", 5), [Lib()]);
    WalkChildrenCons(["env"], RegularFile("pyvenv.cfg", 0), [RegularFile("a.py", 5), Lib()]);
    assert [RegularFile("pyvenv.cfg", 0)] + [RegularFile("a.py", 5), Lib()] == EnvTree().children;
    assert [RegularFile("a.py", 5)] + [Lib()] == [RegularFile("a.py", 5), Lib()];
    assert [Lib()] + [] == [Lib()];
    assert [b] + [] == Lib().children;
  }

  lemma EnvTreeSize()
    ensures !HasUnreadableFile(EnvTree()) && TreeSize(EnvTree()) == 15
  {
    var cs := EnvTree().children;
    assert cs[1..] == [RegularFile("a.py", 5), Lib()] && cs[1..][1..] == [Lib()] && cs[1..][1..][1..] == [];
    assert Lib().children[1..] == [];
    assert ChildrenSize(Lib().children) == 10;
    assert !AnyUnreadableFile(Lib().children);
  }

  lemma EnvTreeIsVenv()
    ensures ReportFor(Entry(["env"], EnvTree())) == [VenvInfo(["env"], 15, Some(Mtime))]
  {
    EnvTreeSize();
    assert HasChild(EnvTree(), MarkerFile) by { assert EnvTree().children[0].name == MarkerFile; }
    assert ToLower("env") == "env";
  }

  lemma LibIsNoVenvName()
    ensures !IsVenvName("lib")
  {
    assert ToLower("lib") == "lib";
  }

  /** The directory is reported once, with the sum of its files' lengths. */
  lemma EnvWithMarkerReportedWithFileSum()
    ensures Reported(WalkFrom(["env"], EnvTree())) == [VenvInfo(["env"], 15, Some(Mtime))]
  {
    assert Exists(EnvTree());
    EnvTreeWalk();
    var head := [Entry(["env"], EnvTree())];
    var tail := [Entry(["env", "pyvenv.cfg"], RegularFile("pyvenv.cfg", 0)),
                 Entry(["env", "a.py"], RegularFile("a.py", 5)),
                 Entry(["env", "lib"], Lib()),
                 Entry(["env", "lib", "b.py"], RegularFile("b.py", 10))];
    ReportedAppend(head, tail);
    EnvTreeIsVenv();
    assert Reported(head) == ReportFor(head[0]) by {
      assert head[..0] == [];
    }
    LibIsNoVenvName();
    NoCandidatesReportNothing(tail);
  }

  /** Only `venv`, `.venv` and `env` are conventional names, in any letter case; `.env` is not one. */
  lemma ConventionalNames()
    ensures IsVenvName("venv") && IsVenvName(".venv") && IsVenvName("env")
    ensures IsVenvName("VENV") && IsVenvName(".Venv") && IsVenvName("Env")
    ensures !IsVenvName(".env") && !IsVenvName("virtualenv") && !IsVenvName("venv2")
  {
    assert ToLower("venv") == "venv" && ToLower(".venv") == ".venv" && ToLower("env") == "env";
    assert ToLower("VENV") == "venv" && ToLower(".Venv") == ".venv" && ToLower("Env") == "env";
    assert ToLower(".env") == ".env";
    assert |ToLower("virtualenv")| == 10 && |ToLower("venv2")| == 5 && ToLower("venv2")[4] == '2';
  }

  /** `env/` holding only a 5-byte file and no marker. */
  function UnmarkedEnv(): Node { Folder("env", [RegularFile("a.py", 5)]) }

  /** A directory with a conventional name but no marker file is not reported. */
  lemma EnvWithoutMarkerNotReported()
    ensures Reported(WalkFrom(["env"], UnmarkedEnv())) == []
  {
    assert Exists(UnmarkedEnv());
    var a := RegularFile("a.py", 5);
    assert ["env"] + ["a.py"] == ["env", "a.py"];
    WalkChildrenCons(["env"], a, []);
    assert [a] + [] == UnmarkedEnv().children;
    var w := Walk(["env"], UnmarkedEnv());
    assert w == [Entry(["env"], UnmarkedEnv()), Entry(["env", "a.py"], a)];
    assert !HasChild(UnmarkedEnv(), MarkerFile) by {
      assert UnmarkedEnv().children[0].name != MarkerFile;
    }
    assert w[..1] == [w[0]] && w[..1][..0] == [];
  }

  /** `project/` holding `src/` and `env/` with a marker. */
  function Project(): Node
  {
    Folder("project", [Folder("src", [RegularFile("main.py", 3)]),
                       Folder("env", [RegularFile("pyvenv.cfg", 0)])])
  }

  /** A virtualenv nested in an unrelated directory is found by a scan of that directory. */
  lemma NestedInProjectReported()
    ensures VenvInfo(["project", "env"], 0, Some(Mtime)) in Reported(WalkFrom(["project"], Project()))
  {
    assert Exists(Project());
    var env := Project().children[1];
    assert ["project"] + [env.name] == ["project", "env"];
    assert HasChild(env, MarkerFile) by { assert env.children[0].name == MarkerFile; }
    assert ToLower("env") == "env";
    assert env.children[1..] == [];
    ChildVenvReported(["project"], Project(), 1);
  }

  /**
   * A directory whose own metadata fails cannot be walked at all: its size
   * fold finds nothing, even though an unreadable file lies below it.
   */
  lemma UnreadableRootHasNoSizeError()
    ensures FileSizes(WalkFrom(["venv"], Dir("venv", None, false, [File("x", None, false)]))) == Ok(0)
    ensures DirSizeOrZero(["venv"], Dir("venv", None, false, [File("x", None, false)])) == 0
  {
  }

  /**
   * The marker test is an existence check: a directory named `pyvenv.cfg`, or a
   * link to an existing target, counts; a dangling link does not.
   */
  lemma MarkerIsAnyExistingEntry()
    ensures HasChild(Folder("env", [Folder("pyvenv.cfg", [])]), MarkerFile)
    ensures HasChild(Folder("env", [Symlink("pyvenv.cfg", None, false, true)]), MarkerFile)
    ensures !HasChild(Folder("env", [Symlink("pyvenv.cfg", Readable(0), false, false)]), MarkerFile)
  {
    assert Folder("env", [Folder("pyvenv.cfg", [])]).children[0].name == MarkerFile;
    assert Folder("env", [Symlink("pyvenv.cfg", None, false, true)]).children[0].name == MarkerFile;
  }
}
