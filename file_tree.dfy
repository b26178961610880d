/**
 * An abstract directory tree standing in for the real filesystem, and the
 * pre-order walk that `WalkDir::new(path).into_iter().filter_map(Result::ok)`
 * produces over it.
 *
 * Each node carries the outcome of the filesystem calls the scanner makes on it:
 *   - `meta`: what `fs::metadata` (or `DirEntry::metadata`) returns, `None` when
 *     the call fails;
 *   - `walkError`: the walk yields an `Err` in place of this entry, so the entry
 *     and everything below it are dropped by `filter_map(Result::ok)`.
 * Symbolic links are not followed by the walk; `targetExists` records whether
 * a stat that does follow the link (as `Path::exists` does) succeeds.
 * `WalkDir` stats its root before yielding anything; when that stat fails the
 * walk yields a single error, so nothing at all survives `filter_map`.
 */
module FileTree {
  import opened Wrappers

  /** A modification time, kept opaque; the conversion to local time is not modelled. */
  datatype Timestamp = Timestamp(ticks: int)

  /** The part of a successful metadata call the scanner uses. */
  datatype Metadata = Metadata(len: nat, modified: Option<Timestamp>)

  /** A path as its sequence of components. */
  type Path = seq<string>

  datatype Node =
    | Dir(name: string, meta: Option<Metadata>, walkError: bool, children: seq<Node>)
    | File(name: string, meta: Option<Metadata>, walkError: bool)
    | Symlink(name: string, meta: Option<Metadata>, walkError: bool, targetExists: bool)

  /** One item of the walk: the entry's full path and the node found there. */
  datatype Entry = Entry(path: Path, node: Node)

  /**
   * The entries the walk rooted at `n` (itself at `path`) yields, in order:
   * the node itself first, then the walk of each child in listing order.
   * Only directories are descended into; an erroring entry is skipped whole.
   */
  function Walk(path: Path, n: Node): seq<Entry>
    decreases n, 1
  {
    if n.walkError then []
    else [Entry(path, n)] + (if n.Dir? then WalkChildren(path, n.children) else [])
  }

  /** The walks of the children `cs` of the directory at `dir`, one after another. */
  function WalkChildren(dir: Path, cs: seq<Node>): seq<Entry>
    decreases cs, 0
  {
    if cs == [] then [] else Walk(dir + [cs[0].name], cs[0]) + WalkChildren(dir, cs[1..])
  }

  /**
   * The walk `WalkDir::new(path)` performs: the root is stat'ed first (following
   * a link), and a root that cannot be stat'ed yields nothing.
   */
  function WalkFrom(path: Path, n: Node): seq<Entry>
  {
    if Exists(n) then Walk(path, n) else []
  }

  /** `Path::exists`: a metadata call that follows symbolic links succeeds. */
  predicate Exists(n: Node)
  {
    if n.Symlink? then n.targetExists else n.meta.Some?
  }

  /** `path.join(name).exists()` for the directory `d`: some direct child of that name exists. */
  predicate HasChild(d: Node, name: string)
  {
    d.Dir? && exists i :: 0 <= i < |d.children| && d.children[i].name == name && Exists(d.children[i])
  }

  /** ASCII lower-casing of one character. */
  function LowerChar(c: char): char
  {
    if 'A' <= c <= 'Z' then (c as int + 32) as char else c
  }

  /** Lower-casing of a file name, character by character. */
  function ToLower(s: string): (r: string)
    ensures |r| == |s|
    ensures forall i :: 0 <= i < |s| ==> r[i] == LowerChar(s[i])
  {
    seq(|s|, i requires 0 <= i < |s| => LowerChar(s[i]))
  }

  /** Names in which sibling entries are distinct, at every level: a well-formed tree. */
  predicate WellFormed(n: Node)
  {
    n.Dir? ==>
      (forall i, j :: 0 <= i < j < |n.children| ==> n.children[i].name != n.children[j].name) &&
      (forall i :: 0 <= i < |n.children| ==> WellFormed(n.children[i]))
  }

  /** No two entries of the walk share a path. */
  predicate DistinctPaths(w: seq<Entry>)
  {
    forall i, j :: 0 <= i < j < |w| ==> w[i].path != w[j].path
  }

  /** The walk of a child lies inside the walk of the children list that holds it. */
  lemma {:induction false} WalkChildrenContains(dir: Path, cs: seq<Node>, k: nat)
    requires k < |cs|
    ensures forall e :: e in Walk(dir + [cs[k].name], cs[k]) ==> e in WalkChildren(dir, cs)
    decreases k
  {
    if k > 0 {
      WalkChildrenContains(dir, cs[1..], k - 1);
    }
  }

  /**
   * The walk descends into every child of a directory it reaches, whatever the
   * directory is, so entries nested at any depth are visited.
   */
  lemma WalkDescends(path: Path, d: Node, k: nat)
    requires d.Dir? && !d.walkError && k < |d.children|
    ensures forall e :: e in Walk(path + [d.children[k].name], d.children[k]) ==> e in Walk(path, d)
  {
    WalkChildrenContains(path, d.children, k);
  }

  /**
   * Every entry of the walk rooted at `path` lies under `path`; the root entry
   * comes first and is the only one at `path` itself.
   */
  lemma {:induction false} WalkUnder(path: Path, n: Node)
    ensures forall e :: e in Walk(path, n) ==> |path| <= |e.path| && e.path[..|path|] == path
    ensures Walk(path, n) != [] ==> Walk(path, n)[0].path == path
    ensures forall i :: 0 < i < |Walk(path, n)| ==> |Walk(path, n)[i].path| > |path|
    decreases n, 1
  {
    if !n.walkError && n.Dir? {
      WalkChildrenUnder(path, n.children);
      var w := Walk(path, n);
      assert w == [Entry(path, n)] + WalkChildren(path, n.children);
      forall i | 0 < i < |w| ensures |w[i].path| > |path| {
        assert w[i] in WalkChildren(path, n.children);
      }
    }
  }

  /** Every entry of the children's walks lies strictly under `dir`, below one of the children's names. */
  lemma {:induction false} WalkChildrenUnder(dir: Path, cs: seq<Node>)
    ensures forall e :: e in WalkChildren(dir, cs) ==>
      |dir| < |e.path| && e.path[..|dir|] == dir && exists k :: 0 <= k < |cs| && e.path[|dir|] == cs[k].name
    decreases cs, 0
  {
    if cs != [] {
      var p0 := dir + [cs[0].name];
      WalkUnder(p0, cs[0]);
      WalkChildrenUnder(dir, cs[1..]);
      forall e | e in WalkChildren(dir, cs)
        ensures |dir| < |e.path| && e.path[..|dir|] == dir && exists k :: 0 <= k < |cs| && e.path[|dir|] == cs[k].name
      {
        if e in Walk(p0, cs[0]) {
          assert e.path[..|p0|] == p0;
          assert e.path[..|dir|] == e.path[..|p0|][..|dir|];
          assert e.path[|dir|] == e.path[..|p0|][|dir|] == cs[0].name;
        } else {
          assert e in WalkChildren(dir, cs[1..]);
          var k :| 0 <= k < |cs[1..]| && e.path[|dir|] == cs[1..][k].name;
          assert e.path[|dir|] == cs[k + 1].name;
        }
      }
    }
  }

  /** Two walks whose paths never meet concatenate to a walk without repeated paths. */
  lemma DistinctPathsAppend(a: seq<Entry>, b: seq<Entry>)
    requires DistinctPaths(a) && DistinctPaths(b)
    requires forall x, y :: x in a && y in b ==> x.path != y.path
    ensures DistinctPaths(a + b)
  {
    var w := a + b;
    forall i, j | 0 <= i < j < |w| ensures w[i].path != w[j].path {
      if j < |a| {
        assert w[i] == a[i] && w[j] == a[j];
      } else if i >= |a| {
        assert w[i] == b[i - |a|] && w[j] == b[j - |a|];
      } else {
        assert w[i] in a && w[j] in b;
      }
    }
  }

  /**
   * In a well-formed tree the walk visits every path at most once: no
   * directory can be reported twice by a scan.
   */
  lemma {:induction false} WalkDistinct(path: Path, n: Node)
    requires WellFormed(n)
    ensures DistinctPaths(Walk(path, n))
    decreases n, 1
  {
    if !n.walkError && n.Dir? {
      WalkChildrenDistinct(path, n.children);
      WalkChildrenUnder(path, n.children);
      DistinctPathsAppend([Entry(path, n)], WalkChildren(path, n.children));
    }
  }

  /** The children's walks of a directory with distinct, well-formed children repeat no path. */
  lemma {:induction false} WalkChildrenDistinct(dir: Path, cs: seq<Node>)
    requires forall i, j :: 0 <= i < j < |cs| ==> cs[i].name != cs[j].name
    requires forall i :: 0 <= i < |cs| ==> WellFormed(cs[i])
    ensures DistinctPaths(WalkChildren(dir, cs))
    decreases cs, 0
  {
    if cs != [] {
      var p0 := dir + [cs[0].name];
      var head := Walk(p0, cs[0]);
      var tail := WalkChildren(dir, cs[1..]);
      WalkDistinct(p0, cs[0]);
      assert forall i, j :: 0 <= i < j < |cs[1..]| ==> cs[1..][i].name != cs[1..][j].name by {
        forall i, j | 0 <= i < j < |cs[1..]| ensures cs[1..][i].name != cs[1..][j].name {
          assert cs[1..][i] == cs[i + 1] && cs[1..][j] == cs[j + 1];
        }
      }
      WalkChildrenDistinct(dir, cs[1..]);
      WalkUnder(p0, cs[0]);
      WalkChildrenUnder(dir, cs[1..]);
      forall x, y | x in head && y in tail ensures x.path != y.path {
        assert x.path[..|p0|] == p0;
        assert x.path[|dir|] == x.path[..|p0|][|dir|] == cs[0].name;
        var k :| 0 <= k < |cs[1..]| && y.path[|dir|] == cs[1..][k].name;
        assert y.path[|dir|] == cs[k + 1].name;
      }
      DistinctPathsAppend(head, tail);
    }
  }

  /** An entry the walk errors on is skipped whole: the walk is as if it were absent. */
  lemma {:induction false} WalkChildrenSkipsError(dir: Path, before: seq<Node>, c: Node, after: seq<Node>)
    requires c.walkError
    ensures WalkChildren(dir, before + [c] + after) == WalkChildren(dir, before + after)
    decreases |before|
  {
    if before == [] {
      assert before + [c] + after == [c] + after;
      assert ([c] + after)[1..] == after;
      assert before + after == after;
    } else {
      assert (before + [c] + after)[0] == before[0];
      assert (before + [c] + after)[1..] == before[1..] + [c] + after;
      assert (before + after)[0] == before[0];
      assert (before + after)[1..] == before[1..] + after;
      WalkChildrenSkipsError(dir, before[1..], c, after);
    }
  }
}
