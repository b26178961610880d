# pykill core in Dafny

A model of the two pieces of logic in `pykill`, a small terminal tool that finds
Python virtual environments below a directory and lets the user pick one:

- **the scanner** (`src/scanner.rs`): walk a directory tree, report each
  directory whose lower-cased name is `venv`, `.venv` or `env` and which holds a
  `pyvenv.cfg` marker, together with its total file size and its modification
  time;
- **the selection cursor** (`src/app.rs`): the list of discovered environments
  and the index of the highlighted one, moved up and down one step at a time.

## Layout

- `wrappers.dfy` — module `Wrappers`: `Option` and `Result`.
- `file_tree.dfy` — module `FileTree`: the filesystem as a tree of `Node`s
  (directories with children, regular files, symbolic links). Each node records
  whether its metadata can be read (`meta`, holding length and optional
  modification time), and whether the directory walk yields an error in its place
  (`walkError`). `WalkFrom` is the walk of `WalkDir::new(path)` after
  `filter_map(Result::ok)`. It first stats the root and yields nothing when that
  fails. Otherwise it yields the root entry, then the children in listing order
  (`Walk`). It does not follow symbolic links below the root, and it skips an
  erroring entry together with its subtree. A directory whose listing fails is
  expressed by marking its children `walkError`.
- `scanner.dfy` — module `Scanner`: `VenvInfo`, the size fold of `get_dir_size`
  (`FileSizes`, method `GetDirSize`), `VenvInfo::new` (`VenvInfoOf`, method
  `NewVenvInfo`), the loop of `scan_for_venvs` (`Reported`, method
  `ScanForVenvs`), and the lemmas that describe what the scan reports.
- `scanner_scenarios.dfy` — module `ScannerScenarios`: concrete trees and what
  the scan reports for them.
- `app.dfy` — module `AppState`: the step functions of the cursor, their lemmas,
  and class `App` with `Previous`, `Next` and `SelectedVenv`.

The two loops of the source (`scan_for_venvs` and `get_dir_size`) are methods
over the walk sequence, each proved equal to a fold over that sequence. The size
fold is tied to recursive definitions over the tree (`TreeSize`,
`HasUnreadableFile`) by `WalkFileSizes`. The scan fold is tied to the tree
recursion `VenvsIn` by `ReportedVenvsIn`. It is also described entry by entry:
`ReportedExactly` gives membership through the acceptance rule `Accepted`, and
`ReportedAppend` gives order.

Facts about the code that the model keeps:
- the accepted names are `venv`, `.venv` and `env`, in any letter case; `.env`
  is not one;
- a directory also needs readable metadata of its own to be reported, not only
  the marker file;
- the marker test is `exists()`: any entry named `pyvenv.cfg` counts, a
  directory or a link to an existing target included, and a dangling link does
  not;
- one unreadable file makes the whole reported size 0, rather than being
  skipped; an entry the walk errors on is skipped and does not change the size;
- the marker file's own length counts towards the size;
- matched environments are descended into, so nested ones are reported too;
- the cursor has only `previous`, `next` and `selected_venv`; there is no
  delete-confirmation dialog and no cursor adjustment after a removal.

## Model

| member | source | states |
|---|---|---|
| `AppState.App.constructor` | src/app.rs:9-14 | the list is kept exactly as given, the cursor starts at 0, and the cursor invariant holds |
| `AppState.App.Previous` | src/app.rs:16-20 | the cursor goes down by exactly one when above 0 and stays at 0 otherwise; the list is unchanged; the cursor invariant is preserved |
| `AppState.App.Next` | src/app.rs:22-26 | the cursor goes up by one exactly when `selected + 1 < len`, else stays; the list is unchanged; the cursor invariant is preserved, so an empty list keeps the cursor at 0 |
| `AppState.App.SelectedVenv` | src/app.rs:28-30 | returns an entry exactly when the cursor is below the list length, and that entry is the one at the cursor |
| `AppState.App.ValidSelectsEntry` | src/app.rs:28-30 | under the cursor invariant a non-empty list always yields the entry at the cursor |
| `AppState.PreviousIndex` | src/app.rs:16-20 | one step up never goes below 0 and, above 0, is exactly one less |
| `AppState.NextIndex` | src/app.rs:22-26 | one step down moves by at most one, exactly when a further entry exists, and keeps an in-range index in range |
| `AppState.PreviousSaturates` | src/app.rs:16-20 | any number `k` of `previous` calls gives `selected - k`, saturating at 0 |
| `AppState.NextSaturates` | src/app.rs:22-26 | any number `k` of `next` calls gives `selected + k`, saturating at `len - 1`; from an index at or past the end (an empty list included) the cursor never moves |
| `AppState.PreviousThenNextRestores` | src/app.rs:16-26 | for `0 < selected < len`, `previous` then `next` restores the index |
| `AppState.NextThenPreviousRestores` | src/app.rs:16-26 | for `selected + 1 < len`, `next` then `previous` restores the index |
| `AppState.RunKeepsInRange` | src/app.rs:16-26 | every sequence of moves keeps the cursor below the length of a non-empty list, and at 0 for an empty one |
| `FileTree.ToLower` | src/scanner.rs:46 | lower-casing keeps the length and lowers each character |
| `FileTree.Walk` | src/scanner.rs:41 | the walk below a stat'ed root: the node itself, then the walks of its children in listing order; only directories are descended into, and an erroring entry yields nothing |
| `FileTree.WalkChildren` | src/scanner.rs:41 | the walks of a directory's children, one after another, each child at the directory's path extended by its name |
| `FileTree.WalkFrom` | src/scanner.rs:41 | `WalkDir::new(path)`: a root that cannot be stat'ed yields nothing, otherwise the walk of the root |
| `FileTree.Exists` | src/scanner.rs:17 | `exists()`: a stat following links succeeds, so true for a readable entry of any kind or a link to an existing target |
| `FileTree.HasChild` | src/scanner.rs:16-17 | `path.join(name).exists()`: the directory has a direct child of that exact name that exists |
| `FileTree.WalkChildrenContains` | src/scanner.rs:41 | the walk of each child is part of the walk of its directory's children |
| `FileTree.WalkDescends` | src/scanner.rs:41 | the walk descends into every child of every directory it reaches, matched or not |
| `FileTree.WalkUnder` | src/scanner.rs:41 | every walked path lies under the root path; the root entry comes first and is the only one at the root path |
| `FileTree.WalkChildrenUnder` | src/scanner.rs:41 | every entry of a directory's children's walks lies strictly under the directory, below one of the child names |
| `FileTree.WalkDistinct` | src/scanner.rs:41 | in a tree with distinct sibling names, the walk yields each path at most once |
| `FileTree.WalkChildrenDistinct` | src/scanner.rs:41 | the children's walks of such a tree repeat no path |
| `FileTree.WalkChildrenSkipsError` | src/scanner.rs:41 | an entry the walk errors on is dropped whole: the walk equals the walk without it |
| `Scanner.IsVenvName` | src/scanner.rs:46-47 | the lower-cased name is exactly `venv`, `.venv` or `env` |
| `Scanner.IsCandidate` | src/scanner.rs:42-47 | a walk entry is handed to `VenvInfo::new` when it is a directory with a conventional name |
| `Scanner.FileSizes` | src/scanner.rs:59-67 | the fold of `get_dir_size`: add regular-file lengths in walk order, returning the error of the first file whose metadata fails |
| `Scanner.TreeSize` | src/scanner.rs:58-68 | reference sum over the tree of the lengths of the regular files the walk reaches; directories and links add nothing |
| `Scanner.HasUnreadableFile` | src/scanner.rs:63 | reference test over the tree: the walk reaches a regular file whose metadata fails |
| `Scanner.ReportedSize` | src/scanner.rs:22 | the size a readable directory is reported with: `TreeSize`, or 0 when any reached file is unreadable |
| `Scanner.ReportFor` | src/scanner.rs:42-51 | the loop body: for a candidate entry, the result of `VenvInfo::new` if any; nothing otherwise |
| `Scanner.Reported` | src/scanner.rs:39-54 | the loop's results after a prefix of the walk: the earlier results followed by the last entry's report |
| `Scanner.Accepted` | src/scanner.rs:16-47 | the acceptance rule for one walk entry: a directory, conventional name, marker child, readable own metadata |
| `Scanner.VenvsIn` | src/scanner.rs:39-54 | reference recursion over the tree: a node's own report, then those of its children in order; an erroring subtree reports nothing |
| `Scanner.VenvsInChildren` | src/scanner.rs:39-54 | the same for a list of children |
| `Scanner.ReportedVenvsIn` | src/scanner.rs:39-54 | the scan fold over a subtree's walk equals the tree recursion `VenvsIn` |
| `Scanner.ReportedChildrenVenvsIn` | src/scanner.rs:39-54 | the same for the walks of a list of children |
| `Scanner.VenvNameIgnoresCase` | src/scanner.rs:46-47 | the name test gives the same answer on a name and on its lower-cased form |
| `Scanner.FileSizesAppend` | src/scanner.rs:58-68 | the size fold over two walk segments is the fold over the first followed by the second: the first error wins, otherwise the sums add |
| `Scanner.WalkFileSizes` | src/scanner.rs:58-68 | the size fold over a subtree's walk fails exactly when the walk reaches an unreadable regular file, and otherwise equals the sum of regular-file lengths in the subtree |
| `Scanner.WalkChildrenFileSizes` | src/scanner.rs:58-68 | the same for the walks of a list of children |
| `Scanner.GetDirSize` | src/scanner.rs:58-68 | for a root that can be stat'ed, returns an error exactly when a reached regular file's metadata fails, and otherwise the sum of the lengths of regular files in the subtree; directories and symbolic links add nothing; a root that cannot be stat'ed gives 0 |
| `Scanner.DirSizeOrZero` | src/scanner.rs:22 | the size used is the file-length sum, or 0 (not a partial sum) when any file's metadata fails or the directory cannot be stat'ed |
| `Scanner.VenvInfoOf` | src/scanner.rs:14-34 | an entry is produced exactly when the marker file exists directly inside and the directory's own metadata is readable; it then carries the path, the size (0 if any file is unreadable), and the modification time, absent when unavailable |
| `Scanner.NewVenvInfo` | src/scanner.rs:14-34 | the early-return construction produces exactly the entry described by `VenvInfoOf` |
| `Scanner.ScanForVenvs` | src/scanner.rs:38-55 | the loop over the walk returns exactly the fold `Reported` over it, which is the tree recursion `VenvsIn` (nothing when the root cannot be stat'ed); it has no precondition and no failure result |
| `Scanner.ReportedAppend` | src/scanner.rs:39-54 | the results over a concatenated walk are the results of the first part followed by those of the second: walk order is kept |
| `Scanner.ReportedAtMostOnePerEntry` | src/scanner.rs:41-52 | the scan yields at most one result per walk entry |
| `Scanner.ReportedExactly` | src/scanner.rs:41-52 | a value is reported if and only if some walk entry is a directory with a conventional name, the marker file and readable metadata, and the value is that entry's path, size and modification time |
| `Scanner.ReportedPathsFromWalk` | src/scanner.rs:48-49 | every reported path is the path of a walk entry |
| `Scanner.ReportedDistinct` | src/scanner.rs:39-54 | a walk without repeated paths yields results without repeated paths |
| `Scanner.ScanReportsEachPathOnce` | src/scanner.rs:38-55 | in a tree with distinct sibling names the scan reports each directory at most once |
| `Scanner.ChildVenvReported` | src/scanner.rs:41-52 | an accepted directory inside any reachable directory is reported, independent of its parent and siblings |
| `Scanner.NestedVenvsReported` | src/scanner.rs:41-52 | an accepted directory inside an accepted directory is reported together with it: the scan does not stop at a match |
| `Scanner.WalkErrorIgnoredBySize` | src/scanner.rs:61-63 | an entry the walk errors on leaves the reported size as it would be without that entry, unlike an unreadable file |
| `ScannerScenarios.ConventionalNames` | src/scanner.rs:46-47 | `venv`, `.venv`, `env` match in any letter case; `.env`, `virtualenv` and `venv2` do not |
| `ScannerScenarios.EnvWithMarkerReportedWithFileSum` | src/scanner.rs:16-22 | `env/` holding an empty marker, a 5-byte file and a subdirectory with a 10-byte file is reported once, with size 15 |
| `ScannerScenarios.EnvWithoutMarkerNotReported` | src/scanner.rs:16-19 | `env/` without `pyvenv.cfg` yields no result |
| `ScannerScenarios.NestedInProjectReported` | src/scanner.rs:41-52 | `project/env/pyvenv.cfg` is found by a scan of `project/` |
| `ScannerScenarios.UnreadableRootHasNoSizeError` | src/scanner.rs:58-68 | a directory whose own metadata fails walks to nothing, so its size fold is `Ok(0)` even with an unreadable file below it |
| `ScannerScenarios.MarkerIsAnyExistingEntry` | src/scanner.rs:16-17 | a directory named `pyvenv.cfg` or a link to an existing target counts as the marker; a dangling link does not |

## Left out

- `src/ui.rs` (the printed list and the `size / 1024 / 1024` display): presentation only.
- `src/main.rs` (`env::current_dir().unwrap()` and the scripted moves): process entry; the root path and root node are parameters of `ScanForVenvs`.
- `src/utils.rs` `delete_venv`: a one-line call to `fs::remove_dir_all`, a filesystem effect with no logic.
- The real `WalkDir`, `fs::metadata` and `Path::exists`: replaced by the tree. Mid-scan changes are not modelled: the outer walk of `scan_for_venvs` and the inner walk of `get_dir_size` see the same tree.
- A symbolic link given as the scan root itself: `WalkFrom` stats it through the link, but does not walk the target's contents as `WalkDir` does. Below the root no link is followed, as modelled.
- `chrono` conversion to local time: `Timestamp` is an opaque value carried through unchanged.
- Unicode: `to_string_lossy` and Unicode `to_lowercase` are modelled by ASCII lower-casing. This makes no difference to the match against `venv`, `.venv` and `env`, but is not proved.
- `pyvenv.cfg` is looked up with an exact, case-sensitive name; case-insensitive filesystems are not modelled.
- `Scanner.GetDirSize`: sizes are unbounded `nat`; the `u64` addition at src/scanner.rs:63, which can overflow, is not modelled.
- `AppState.App.Next`: `selected` is an unbounded `nat`; the `usize` overflow of `selected + 1` when a caller has set `selected` to the maximum is not modelled.
