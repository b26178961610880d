/**
 * The virtualenv scanner: which directories of a tree are reported, and with
 * what size and modification time.
 */
module Scanner {
  import opened Wrappers
  import opened FileTree

  /** One discovered virtualenv. */
  datatype VenvInfo = VenvInfo(path: Path, size: nat, lastModified: Option<Timestamp>)

  /** The error `get_dir_size` propagates: a file whose metadata could not be read. */
  datatype IoError = MetadataError(path: Path)

  /** The marker file whose presence identifies a virtualenv directory. */
  const MarkerFile: string := "pyvenv.cfg"

  /** The directory names a candidate may have, compared after lower-casing. */
  predicate IsVenvName(name: string)
  {
    var lower := ToLower(name);
    lower == "venv" || lower == ".venv" || lower == "env"
  }

  /** The name test ignores letter case: lower-casing a name first changes nothing. */
  lemma VenvNameIgnoresCase(name: string)
    ensures IsVenvName(ToLower(name)) <==> IsVenvName(name)
  {
    var once := ToLower(name);
    var twice := ToLower(once);
    forall i | 0 <= i < |name| ensures twice[i] == once[i] {
      assert once[i] == LowerChar(name[i]);
    }
    assert twice == once;
  }

  // ---------------------------------------------------------------------------
  // Size of a directory
  // ---------------------------------------------------------------------------

  /**
   * The fold `get_dir_size` runs over a walk: add up the lengths of the regular
   * files in order, stopping at the first file whose metadata cannot be read.
   */
  function FileSizes(w: seq<Entry>): Result<nat, IoError>
  {
    if w == [] then Ok(0)
    else if !w[0].node.File? then FileSizes(w[1..])
    else if w[0].node.meta.None? then Err(MetadataError(w[0].path))
    else match FileSizes(w[1..])
      case Ok(s) => Ok(w[0].node.meta.value.len + s)
      case Err(e) => Err(e)
  }

  /** Run one part of the fold after another: the first error wins, otherwise the sums add. */
  function Then(first: Result<nat, IoError>, second: Result<nat, IoError>): Result<nat, IoError>
  {
    match first
    case Err(e) => Err(e)
    case Ok(x) => (match second case Ok(y) => Ok(x + y) case Err(e) => Err(e))
  }

  /** The fold over a concatenation is the fold over the first part, then over the second. */
  lemma {:induction false} FileSizesAppend(a: seq<Entry>, b: seq<Entry>)
    ensures FileSizes(a + b) == Then(FileSizes(a), FileSizes(b))
  {
    if a == [] {
      assert a + b == b;
    } else {
      assert (a + b)[0] == a[0];
      assert (a + b)[1..] == a[1..] + b;
      FileSizesAppend(a[1..], b);
    }
  }

  /**
   * Sum of the lengths of the regular files of a subtree, counting only what
   * the walk reaches; directories and symbolic links contribute nothing.
   */
  function TreeSize(n: Node): nat
    decreases n, 1
  {
    if n.walkError then 0
    else match n
      case File(_, meta, _) => if meta.Some? then meta.value.len else 0
      case Dir(_, _, _, cs) => ChildrenSize(cs)
      case Symlink(_, _, _, _) => 0
  }

  function ChildrenSize(cs: seq<Node>): nat
    decreases cs, 0
  {
    if cs == [] then 0 else TreeSize(cs[0]) + ChildrenSize(cs[1..])
  }

  /** The walk of the subtree reaches a regular file whose metadata cannot be read. */
  predicate HasUnreadableFile(n: Node)
    decreases n, 1
  {
    !n.walkError &&
    ((n.File? && n.meta.None?) || (n.Dir? && AnyUnreadableFile(n.children)))
  }

  predicate AnyUnreadableFile(cs: seq<Node>)
    decreases cs, 0
  {
    cs != [] && (HasUnreadableFile(cs[0]) || AnyUnreadableFile(cs[1..]))
  }

  /**
   * The fold over the walk fails exactly when some reached file is unreadable,
   * and otherwise yields the tree's file-size sum.
   */
  lemma {:induction false} WalkFileSizes(path: Path, n: Node)
    ensures FileSizes(Walk(path, n)).Err? <==> HasUnreadableFile(n)
    ensures !HasUnreadableFile(n) ==> FileSizes(Walk(path, n)) == Ok(TreeSize(n))
    decreases n, 1
  {
    if !n.walkError {
      var e := Entry(path, n);
      assert [e][1..] == [];
      match n
      case Dir(_, _, _, cs) =>
        assert Walk(path, n) == [e] + WalkChildren(path, cs);
        assert FileSizes([e]) == Ok(0);
        FileSizesAppend([e], WalkChildren(path, cs));
        WalkChildrenFileSizes(path, cs);
      case File(_, _, _) =>
        assert Walk(path, n) == [e];
      case Symlink(_, _, _, _) =>
        assert Walk(path, n) == [e];
    }
  }

  lemma {:induction false} WalkChildrenFileSizes(dir: Path, cs: seq<Node>)
    ensures FileSizes(WalkChildren(dir, cs)).Err? <==> AnyUnreadableFile(cs)
    ensures !AnyUnreadableFile(cs) ==> FileSizes(WalkChildren(dir, cs)) == Ok(ChildrenSize(cs))
    decreases cs, 0
  {
    if cs != [] {
      WalkFileSizes(dir + [cs[0].name], cs[0]);
      WalkChildrenFileSizes(dir, cs[1..]);
      FileSizesAppend(Walk(dir + [cs[0].name], cs[0]), WalkChildren(dir, cs[1..]));
    }
  }

  /**
   * `get_dir_size`: walk the subtree at `path` and add up the lengths of its
   * regular files, returning the error of the first file whose metadata fails.
   */
  method GetDirSize(path: Path, d: Node) returns (r: Result<nat, IoError>)
    ensures r == FileSizes(WalkFrom(path, d))
    ensures r.Err? <==> Exists(d) && HasUnreadableFile(d)
    ensures r.Ok? ==> r.value == if Exists(d) then TreeSize(d) else 0
  {
    WalkFileSizes(path, d);
    var walk := WalkFrom(path, d);
    var size := 0;
    var i := 0;
    while i < |walk|
      invariant 0 <= i <= |walk|
      invariant FileSizes(walk[..i]) == Ok(size)
    {
      var entry := walk[i];
      assert walk[..i + 1] == walk[..i] + [entry];
      FileSizesAppend(walk[..i], [entry]);
      if entry.node.File? {
        match entry.node.meta
        case None =>
          assert walk == walk[..i] + walk[i..];
          FileSizesAppend(walk[..i], walk[i..]);
          return Err(MetadataError(entry.path));
        case Some(m) =>
          size := size + m.len;
      }
      i := i + 1;
    }
    assert walk[..i] == walk;
    r := Ok(size);
  }

  /**
   * The size a directory is reported with: the sum of its files' lengths, or 0
   * as soon as one of them has unreadable metadata.
   */
  function ReportedSize(d: Node): nat
  {
    if HasUnreadableFile(d) then 0 else TreeSize(d)
  }

  /** `get_dir_size(&path).unwrap_or(0)`: the fold's sum, or 0 when it failed. */
  function DirSizeOrZero(path: Path, d: Node): (size: nat)
    ensures size == if Exists(d) then ReportedSize(d) else 0
  {
    WalkFileSizes(path, d);
    match FileSizes(WalkFrom(path, d))
    case Ok(s) => s
    case Err(_) => 0
  }

  // ---------------------------------------------------------------------------
  // Classification of one directory
  // ---------------------------------------------------------------------------

  /**
   * `VenvInfo::new`: the entry for the directory `d` at `path`, or `None` when
   * it has no marker file or its own metadata cannot be read.
   */
  function VenvInfoOf(path: Path, d: Node): (r: Option<VenvInfo>)
    ensures r.Some? <==> HasChild(d, MarkerFile) && d.meta.Some?
    ensures r.Some? ==> r.value.path == path
    ensures r.Some? ==> r.value.lastModified == d.meta.value.modified
    ensures r.Some? ==> r.value.size == ReportedSize(d)
  {
    if !HasChild(d, MarkerFile) then None
    else
      var size := DirSizeOrZero(path, d);
      match d.meta
      case None => None
      case Some(m) => Some(VenvInfo(path, size, m.modified))
  }

  /** `VenvInfo::new` as the source runs it, with its early returns. */
  method NewVenvInfo(path: Path, d: Node) returns (r: Option<VenvInfo>)
    ensures r == VenvInfoOf(path, d)
  {
    if !HasChild(d, MarkerFile) {
      return None;
    }
    var sized := GetDirSize(path, d);
    var size := match sized case Ok(s) => s case Err(_) => 0;
    if d.meta.None? {
      return None;
    }
    r := Some(VenvInfo(path, size, d.meta.value.modified));
  }

  // ---------------------------------------------------------------------------
  // The scan
  // ---------------------------------------------------------------------------

  /** The directory entry has one of the conventional names, so it is handed to `VenvInfo::new`. */
  predicate IsCandidate(e: Entry)
  {
    e.node.Dir? && IsVenvName(e.node.name)
  }

  /** What the scan loop appends for one entry of the walk. */
  function ReportFor(e: Entry): seq<VenvInfo>
  {
    if IsCandidate(e) then
      match VenvInfoOf(e.path, e.node)
      case Some(v) => [v]
      case None => []
    else []
  }

  /** What the scan loop has collected after the entries `w`, in walk order. */
  function Reported(w: seq<Entry>): seq<VenvInfo>
  {
    if w == [] then [] else Reported(w[..|w| - 1]) + ReportFor(w[|w| - 1])
  }

  /**
   * What the scan reports for the subtree `n` at `path`, by recursion over the
   * tree: the node's own report, then those of its children in listing order;
   * a subtree the walk errors on reports nothing.
   */
  function VenvsIn(path: Path, n: Node): seq<VenvInfo>
    decreases n, 1
  {
    if n.walkError then []
    else ReportFor(Entry(path, n)) + (if n.Dir? then VenvsInChildren(path, n.children) else [])
  }

  function VenvsInChildren(dir: Path, cs: seq<Node>): seq<VenvInfo>
    decreases cs, 0
  {
    if cs == [] then [] else VenvsIn(dir + [cs[0].name], cs[0]) + VenvsInChildren(dir, cs[1..])
  }

  /** The scan loop's fold over the walk is the tree recursion `VenvsIn`. */
  lemma {:induction false} ReportedVenvsIn(path: Path, n: Node)
    ensures Reported(Walk(path, n)) == VenvsIn(path, n)
    decreases n, 1
  {
    if !n.walkError {
      var e := Entry(path, n);
      var rest := if n.Dir? then WalkChildren(path, n.children) else [];
      assert Walk(path, n) == [e] + rest;
      ReportedAppend([e], rest);
      assert [e][..0] == [];
      if n.Dir? {
        ReportedChildrenVenvsIn(path, n.children);
      }
    }
  }

  lemma {:induction false} ReportedChildrenVenvsIn(dir: Path, cs: seq<Node>)
    ensures Reported(WalkChildren(dir, cs)) == VenvsInChildren(dir, cs)
    decreases cs, 0
  {
    if cs != [] {
      ReportedVenvsIn(dir + [cs[0].name], cs[0]);
      ReportedChildrenVenvsIn(dir, cs[1..]);
      ReportedAppend(Walk(dir + [cs[0].name], cs[0]), WalkChildren(dir, cs[1..]));
    }
  }

  /**
   * The rule a reported directory satisfies: a directory with a conventional
   * name, the marker file directly inside it, and readable metadata.
   */
  predicate Accepted(e: Entry)
  {
    e.node.Dir? && IsVenvName(e.node.name) && HasChild(e.node, MarkerFile) && e.node.meta.Some?
  }

  /**
   * `scan_for_venvs`: walk the tree rooted at `root` (at `rootPath`), keep the
   * directories with a conventional name and report those `VenvInfo::new` accepts.
   * It has no precondition and no failure result: the scan always returns a list.
   */
  method ScanForVenvs(rootPath: Path, root: Node) returns (results: seq<VenvInfo>)
    ensures results == Reported(WalkFrom(rootPath, root))
    ensures results == if Exists(root) then VenvsIn(rootPath, root) else []
  {
    ReportedVenvsIn(rootPath, root);
    var walk := WalkFrom(rootPath, root);
    results := [];
    var i := 0;
    while i < |walk|
      invariant 0 <= i <= |walk|
      invariant results == Reported(walk[..i])
    {
      var entry := walk[i];
      assert walk[..i + 1][..i] == walk[..i];
      if entry.node.Dir? {
        var name := ToLower(entry.node.name);
        if name == "venv" || name == ".venv" || name == "env" {
          var venv := NewVenvInfo(entry.path, entry.node);
          if venv.Some? {
            results := results + [venv.value];
          }
        }
      }
      i := i + 1;
    }
    assert walk[..i] == walk;
  }

  /** The loop's output over a concatenation of walks is the concatenation of its outputs. */
  lemma {:induction false} ReportedAppend(a: seq<Entry>, b: seq<Entry>)
    ensures Reported(a + b) == Reported(a) + Reported(b)
    decreases |b|
  {
    if b == [] {
      assert a + b == a;
    } else {
      var b' := b[..|b| - 1];
      assert (a + b)[..|a + b| - 1] == a + b';
      assert (a + b)[|a + b| - 1] == b[|b| - 1];
      ReportedAppend(a, b');
    }
  }

  /** Each entry of the walk contributes at most one result. */
  lemma {:induction false} ReportedAtMostOnePerEntry(w: seq<Entry>)
    ensures |Reported(w)| <= |w|
    decreases |w|
  {
    if w != [] {
      ReportedAtMostOnePerEntry(w[..|w| - 1]);
    }
  }

  /**
   * A value is reported exactly when some entry of the walk satisfies the
   * acceptance rule and the value describes that entry: its path, its size and
   * its directory's modification time.
   */
  lemma {:induction false} ReportedExactly(w: seq<Entry>, v: VenvInfo)
    ensures v in Reported(w) <==>
      exists i :: 0 <= i < |w| && Accepted(w[i]) &&
        v == VenvInfo(w[i].path, ReportedSize(w[i].node), w[i].node.meta.value.modified)
    decreases |w|
  {
    if w != [] {
      var w' := w[..|w| - 1];
      var last := w[|w| - 1];
      ReportedExactly(w', v);
      if v in Reported(w) {
        if v !in Reported(w') {
          assert v in ReportFor(last);
          assert Accepted(w[|w| - 1]);
        } else {
          var i :| 0 <= i < |w'| && Accepted(w'[i]) &&
            v == VenvInfo(w'[i].path, ReportedSize(w'[i].node), w'[i].node.meta.value.modified);
          assert w'[i] == w[i];
        }
      } else {
        forall i | 0 <= i < |w| && Accepted(w[i])
          ensures v != VenvInfo(w[i].path, ReportedSize(w[i].node), w[i].node.meta.value.modified)
        {
          if i < |w| - 1 {
            assert w'[i] == w[i];
          } else {
            assert ReportFor(last) == [VenvInfo(last.path, ReportedSize(last.node), last.node.meta.value.modified)];
          }
        }
      }
    }
  }

  /** Every reported path is the path of an entry of the walk. */
  lemma ReportedPathsFromWalk(w: seq<Entry>, v: VenvInfo)
    requires v in Reported(w)
    ensures exists i :: 0 <= i < |w| && w[i].path == v.path
  {
    ReportedExactly(w, v);
    var i :| 0 <= i < |w| && Accepted(w[i]) &&
      v == VenvInfo(w[i].path, ReportedSize(w[i].node), w[i].node.meta.value.modified);
    assert w[i].path == v.path;
  }

  /** A walk without repeated paths yields results without repeated paths. */
  lemma {:induction false} ReportedDistinct(w: seq<Entry>)
    requires DistinctPaths(w)
    ensures forall j, k :: 0 <= j < k < |Reported(w)| ==> Reported(w)[j].path != Reported(w)[k].path
    decreases |w|
  {
    if w != [] {
      var w' := w[..|w| - 1];
      var last := w[|w| - 1];
      assert DistinctPaths(w') by {
        forall i, j | 0 <= i < j < |w'| ensures w'[i].path != w'[j].path {
          assert w'[i] == w[i] && w'[j] == w[j];
        }
      }
      ReportedDistinct(w');
      var r := Reported(w);
      var r' := Reported(w');
      forall j, k | 0 <= j < k < |r| ensures r[j].path != r[k].path {
        if k >= |r'| {
          assert r[k] in ReportFor(last);
          assert r[k].path == last.path;
          assert r[j] == r'[j];
          ReportedPathsFromWalk(w', r'[j]);
          var i :| 0 <= i < |w'| && w'[i].path == r'[j].path;
          assert w'[i] == w[i];
        } else {
          assert r[j] == r'[j] && r[k] == r'[k];
        }
      }
    }
  }

  /** In a well-formed tree the scan reports every directory at most once. */
  lemma ScanReportsEachPathOnce(rootPath: Path, root: Node)
    requires WellFormed(root)
    ensures var r := Reported(WalkFrom(rootPath, root));
      forall j, k :: 0 <= j < k < |r| ==> r[j].path != r[k].path
  {
    WalkDistinct(rootPath, root);
    ReportedDistinct(WalkFrom(rootPath, root));
  }

  /**
   * A virtualenv directly inside any directory the walk reaches is reported in
   * the scan of that directory, whatever the directory itself is.
   */
  lemma ChildVenvReported(path: Path, d: Node, k: nat)
    requires d.Dir? && !d.walkError
    requires k < |d.children| && !d.children[k].walkError
    requires Accepted(Entry(path + [d.children[k].name], d.children[k]))
    ensures VenvInfoOf(path + [d.children[k].name], d.children[k]).value in Reported(Walk(path, d))
  {
    var w := Walk(path, d);
    var c := d.children[k];
    var cp := path + [c.name];
    WalkDescends(path, d, k);
    assert Entry(cp, c) == Walk(cp, c)[0];
    assert Entry(cp, c) in w;
    var i :| 0 <= i < |w| && w[i] == Entry(cp, c);
    ReportedExactly(w, VenvInfoOf(cp, c).value);
  }

  /**
   * The scan does not stop at a matched virtualenv: an accepted child of an
   * accepted directory is reported as well as the directory itself.
   */
  lemma NestedVenvsReported(path: Path, d: Node, k: nat)
    requires !d.walkError && Accepted(Entry(path, d))
    requires k < |d.children| && !d.children[k].walkError
    requires Accepted(Entry(path + [d.children[k].name], d.children[k]))
    ensures var w := Walk(path, d);
      VenvInfoOf(path, d).value in Reported(w) &&
      VenvInfoOf(path + [d.children[k].name], d.children[k]).value in Reported(w)
  {
    var w := Walk(path, d);
    assert w[0] == Entry(path, d);
    ReportedExactly(w, VenvInfoOf(path, d).value);
    ChildVenvReported(path, d, k);
  }


  /**
   * Walk errors are skipped, not fatal: unlike an unreadable file, an entry the
   * walk errors on leaves the size reported for its directory as it would be
   * without that entry.
   */
  lemma WalkErrorIgnoredBySize(path: Path, name: string, meta: Option<Metadata>,
                               before: seq<Node>, c: Node, after: seq<Node>)
    requires c.walkError
    ensures DirSizeOrZero(path, Dir(name, meta, false, before + [c] + after)) ==
            DirSizeOrZero(path, Dir(name, meta, false, before + after))
  {
    var with := Dir(name, meta, false, before + [c] + after);
    var without := Dir(name, meta, false, before + after);
    WalkChildrenSkipsError(path, before, c, after);
    assert Walk(path, with) == [Entry(path, with)] + WalkChildren(path, before + after);
    assert Walk(path, without) == [Entry(path, without)] + WalkChildren(path, before + after);
    assert [Entry(path, with)][1..] == [] && [Entry(path, without)][1..] == [];
    FileSizesAppend([Entry(path, with)], WalkChildren(path, before + after));
    FileSizesAppend([Entry(path, without)], WalkChildren(path, before + after));
  }
}
