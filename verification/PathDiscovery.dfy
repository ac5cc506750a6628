/** Breadth-first discovery over a fixed finite directory graph (src/common/path_discovery.c). The file
    system is a parameter: the kind of each explicit input and the listing of each readable directory. */
module PathDiscovery {
  import opened Bytes
  import opened PathIndex
  import opened PathTables

  datatype Kind = Regular | Directory | Link | Other

  datatype Child = Child(name: seq<byte>, kind: Kind)

  datatype World = World(kinds: map<Path, Kind>, listing: map<Path, seq<Child>>)

  datatype Options = Options(recursive: bool, rejectLinks: bool, rejectOthers: bool, maxFiles: nat, maxDirectories: nat,
                             maxDepth: nat, maxPathBytes: nat)

  const SLASH: byte := 47

  /** `join_path` with the POSIX separator. */
  function Join(directory: Path, name: seq<byte>): Path {
    if directory != [] && directory[|directory| - 1] != SLASH then directory + [SLASH] + name else directory + name
  }

  predicate IsDot(name: seq<byte>) {
    name == Ascii(".") || name == Ascii("..")
  }

  // ----- What is there to find -----

  /** A traversal: the file system, whether it descends, and the directories it starts from. */
  datatype Search = Search(world: World, recursive: bool, roots: set<Path>)

  /** The children of one kind among the first entries of a directory. */
  function Children(directory: Path, children: seq<Child>, kind: Kind): set<Path> {
    if children == [] then {}
    else
      var last := children[|children| - 1];
      Children(directory, children[..|children| - 1], kind)
      + (if !IsDot(last.name) && last.kind == kind then {Join(directory, last.name)} else {})
  }

  function Listed(world: World, directory: Path): seq<Child> {
    if directory in world.listing then world.listing[directory] else []
  }

  function SubDirectories(search: Search, directory: Path): set<Path> {
    if search.recursive then Children(directory, Listed(search.world, directory), Directory) else {}
  }

  function RegularFiles(world: World, directory: Path): set<Path> {
    Children(directory, Listed(world, directory), Regular)
  }

  /** The directories at most `depth` steps below the roots. */
  function Level(search: Search, depth: nat): set<Path> {
    if depth == 0 then search.roots
    else
      var nearer := Level(search, depth - 1);
      nearer + set d, p | d in nearer && p in SubDirectories(search, d) :: p
  }

  lemma {:induction false} LevelsGrow(search: Search, a: nat, b: nat, path: Path)
    requires a <= b && path in Level(search, a)
    ensures path in Level(search, b)
  {
    if a < b {
      LevelsGrow(search, a, b - 1, path);
    }
  }

  ghost predicate ReachableDirectory(search: Search, path: Path) {
    exists depth: nat {:trigger Level(search, depth)} :: path in Level(search, depth)
  }

  /** The length of a shortest chain from a root. */
  predicate IsDepth(search: Search, path: Path, depth: nat) {
    path in Level(search, depth) && (depth > 0 ==> path !in Level(search, depth - 1))
  }

  function FilesUnder(world: World, directories: set<Path>): set<Path> {
    set d, p | d in directories && p in RegularFiles(world, d) :: p
  }

  // ----- The queue -----

  function PathSet<T>(rows: seq<Row<T>>): set<Path> {
    set path | path in PathsOf(rows)
  }

  /** Shortest depths, in nondecreasing order. */
  ghost predicate Ordered(search: Search, rows: seq<Row<nat>>) {
    && search.roots <= PathSet(rows)
    && (forall i {:trigger IsDepth(search, rows[i].path, rows[i].tag)} :: 0 <= i < |rows| ==>
          IsDepth(search, rows[i].path, rows[i].tag))
    && forall i, j {:trigger InOrder(rows, i, j)} :: 0 <= i < j < |rows| ==> InOrder(rows, i, j)
  }

  predicate InOrder(rows: seq<Row<nat>>, i: nat, j: nat)
    requires i < |rows| && j < |rows|
  {
    rows[i].tag <= rows[j].tag
  }

  predicate NoDeeperThan(rows: seq<Row<nat>>, depth: nat) {
    forall i {:trigger rows[i]} :: 0 <= i < |rows| ==> rows[i].tag <= depth
  }

  /** The subdirectories of the first `count` rows are all queued. */
  ghost predicate Expanded(search: Search, rows: seq<Row<nat>>, count: nat)
    requires count <= |rows|
  {
    forall i {:trigger rows[i]} :: 0 <= i < count ==> SubDirectories(search, rows[i].path) <= PathSet(rows)
  }

  /** A directory nearer than the one being scanned has already been queued. */
  lemma {:induction false} NearerIsQueued(search: Search, rows: seq<Row<nat>>, current: nat, depth: nat)
    requires current < |rows| && Ordered(search, rows) && Expanded(search, rows, current)
    requires depth <= rows[current].tag
    ensures Level(search, depth) <= PathSet(rows)
  {
    if depth > 0 {
      var nearer := Level(search, depth - 1);
      NearerIsQueued(search, rows, current, depth - 1);
      forall d | d in nearer ensures SubDirectories(search, d) <= PathSet(rows) {
        NearerIsExpanded(search, rows, current, depth - 1, d);
      }
      NextLevel(search, depth, PathSet(rows));
    }
  }

  lemma NextLevel(search: Search, depth: nat, paths: set<Path>)
    requires depth > 0 && Level(search, depth - 1) <= paths
    requires forall d {:trigger SubDirectories(search, d)} :: d in Level(search, depth - 1) ==>
      SubDirectories(search, d) <= paths
    ensures Level(search, depth) <= paths
  {
  }

  lemma LaterIsNoNearer(search: Search, rows: seq<Row<nat>>, i: nat, j: nat)
    requires i < |rows| && j < |rows| && Ordered(search, rows)
    ensures i <= j ==> rows[i].tag <= rows[j].tag
  {
    assert i < j ==> InOrder(rows, i, j);
  }

  lemma NearerIsExpanded(search: Search, rows: seq<Row<nat>>, current: nat, depth: nat, d: Path)
    requires current < |rows| && Ordered(search, rows) && Expanded(search, rows, current)
    requires depth < rows[current].tag && d in Level(search, depth) && d in PathSet(rows)
    ensures SubDirectories(search, d) <= PathSet(rows)
  {
    var i :| 0 <= i < |rows| && PathsOf(rows)[i] == d;
    assert IsDepth(search, rows[i].path, rows[i].tag);
    DepthIsAtMost(search, d, rows[i].tag, depth);
    LaterIsNoNearer(search, rows, current, i);
    assert SubDirectories(search, rows[i].path) <= PathSet(rows);
  }

  lemma DepthIsAtMost(search: Search, path: Path, depth: nat, bound: nat)
    requires IsDepth(search, path, depth) && path in Level(search, bound)
    ensures depth <= bound
  {
    if depth > bound {
      LevelsGrow(search, bound, depth - 1, path);
    }
  }

  /** A directory first seen while scanning `current` is exactly one level deeper. */
  lemma NewChildDepth(search: Search, rows: seq<Row<nat>>, current: nat, path: Path)
    requires current < |rows| && Ordered(search, rows) && Expanded(search, rows, current)
    requires path in SubDirectories(search, rows[current].path) && path !in PathSet(rows)
    ensures IsDepth(search, path, rows[current].tag + 1)
  {
    NearerIsQueued(search, rows, current, rows[current].tag);
    assert IsDepth(search, rows[current].path, rows[current].tag);
  }

  lemma PathSetAppends<T>(rows: seq<Row<T>>, row: Row<T>)
    ensures PathSet(rows + [row]) == PathSet(rows) + {row.path}
  {
    assert PathsOf(rows + [row]) == PathsOf(rows) + [row.path];
  }

  /** The first `count` rows stay expanded when the queue grows. */
  lemma StillExpanded(search: Search, rows: seq<Row<nat>>, more: seq<Row<nat>>, count: nat)
    requires count <= |rows| <= |more| && more[..|rows|] == rows && PathSet(rows) <= PathSet(more)
    requires Expanded(search, rows, count)
    ensures Expanded(search, more, count)
  {
    forall i | 0 <= i < count ensures SubDirectories(search, more[i].path) <= PathSet(more) {
      assert more[i] == rows[i];
    }
  }

  lemma StillOrdered(search: Search, rows: seq<Row<nat>>, row: Row<nat>)
    requires Ordered(search, rows) && NoDeeperThan(rows, row.tag) && IsDepth(search, row.path, row.tag)
    ensures Ordered(search, rows + [row]) && NoDeeperThan(rows + [row], row.tag)
  {
    var more := rows + [row];
    PathSetAppends(rows, row);
    forall i | 0 <= i < |more| ensures IsDepth(search, more[i].path, more[i].tag) && more[i].tag <= row.tag {
      assert i < |rows| ==> more[i] == rows[i] && IsDepth(search, rows[i].path, rows[i].tag);
    }
    forall i: nat, j: nat | i < j < |more| ensures InOrder(more, i, j) {
      assert more[i] == rows[i];
      assert j < |rows| ==> more[j] == rows[j] && InOrder(rows, i, j);
    }
  }

  /** Once every row is expanded the queue holds every reachable directory. */
  lemma {:induction false} QueueIsClosed(search: Search, rows: seq<Row<nat>>, depth: nat)
    requires Ordered(search, rows) && Expanded(search, rows, |rows|)
    ensures Level(search, depth) <= PathSet(rows)
  {
    if depth > 0 {
      var nearer := Level(search, depth - 1);
      QueueIsClosed(search, rows, depth - 1);
      forall d | d in nearer ensures SubDirectories(search, d) <= PathSet(rows) {
        assert d in PathSet(rows);
        var i :| 0 <= i < |rows| && PathsOf(rows)[i] == d;
        assert SubDirectories(search, rows[i].path) <= PathSet(rows);
      }
      NextLevel(search, depth, PathSet(rows));
    }
  }

  /** A fully expanded queue is exactly the reachable directories, each once and with its shortest depth. */
  lemma QueueIsReachable(search: Search, rows: seq<Row<nat>>, path: Path)
    requires Ordered(search, rows) && Expanded(search, rows, |rows|)
    ensures path in PathSet(rows) <==> ReachableDirectory(search, path)
  {
    if path in PathSet(rows) {
      var i :| 0 <= i < |rows| && PathsOf(rows)[i] == path;
      assert IsDepth(search, rows[i].path, rows[i].tag);
    }
    if ReachableDirectory(search, path) {
      var depth: nat :| path in Level(search, depth);
      QueueIsClosed(search, rows, depth);
    }
  }

  // ----- The files -----

  /** Everything known about the files once some directories and part of another are scanned. */
  ghost predicate FilesFound(files: map<Path, bool>, explicitFiles: set<Path>, found: set<Path>) {
    files.Keys == explicitFiles + found && forall p {:trigger files[p]} :: p in files ==>
      (files[p] <==> p in explicitFiles)
  }

  lemma FoundOneMore(files: map<Path, bool>, explicitFiles: set<Path>, found: set<Path>, path: Path)
    requires FilesFound(files, explicitFiles, found)
    ensures FilesFound(WithFile(files, path, false), explicitFiles, found + {path})
  {
  }

  lemma GivenOneMore(files: map<Path, bool>, explicitFiles: set<Path>, path: Path)
    requires FilesFound(files, explicitFiles, {})
    ensures FilesFound(WithFile(files, path, true), explicitFiles + {path}, {})
  {
  }

  lemma NextChild(directory: Path, children: seq<Child>, i: nat, kind: Kind)
    requires i < |children|
    ensures Children(directory, children[..i + 1], kind) == Children(directory, children[..i], kind)
            + (if !IsDot(children[i].name) && children[i].kind == kind then {Join(directory, children[i].name)} else {})
  {
    assert children[..i + 1][..i] == children[..i];
  }

  lemma {:induction false} PartOfTheChildren(directory: Path, children: seq<Child>, i: nat, kind: Kind)
    requires i <= |children|
    ensures Children(directory, children[..i], kind) <= Children(directory, children, kind)
    decreases |children|
  {
    if i < |children| {
      PartOfTheChildren(directory, children[..|children| - 1], i, kind);
      assert children[..|children| - 1][..i] == children[..i];
    } else {
      assert children[..i] == children;
    }
  }

  lemma FilesOfOneMore(world: World, directories: set<Path>, d: Path)
    ensures FilesUnder(world, directories + {d}) == FilesUnder(world, directories) + RegularFiles(world, d)
  {
  }

  // ----- The traversal -----

  /** What holds of the queue while the directory at `current` is scanned. */
  ghost predicate Scanning(search: Search, rows: seq<Row<nat>>, current: nat) {
    && current < |rows| && Ordered(search, rows) && Expanded(search, rows, current)
    && NoDeeperThan(rows, rows[current].tag + 1)
  }

  // ----- The limits -----

  /** A limit of zero is no limit. */
  predicate Within(limit: nat, n: nat) {
    limit == 0 || n <= limit
  }

  /** An entry that the options let pass whatever has been found before. */
  predicate PermittedChild(options: Options, directory: Path, child: Child) {
    || IsDot(child.name)
    || (&& Within(options.maxPathBytes, |Join(directory, child.name)|)
        && !(child.kind == Link && options.rejectLinks) && !(child.kind == Other && options.rejectOthers))
  }

  predicate PermittedListing(options: Options, directory: Path, children: seq<Child>) {
    forall i {:trigger children[i]} :: 0 <= i < |children| ==> PermittedChild(options, directory, children[i])
  }

  /** A path is to be found: given as a file, or a regular file in a reachable directory. */
  ghost predicate ToFind(search: Search, explicitFiles: set<Path>, path: Path) {
    || path in explicitFiles
    || exists d {:trigger RegularFiles(search.world, d)} ::
      ReachableDirectory(search, d) && path in RegularFiles(search.world, d)
  }

  ghost predicate AllToFind(search: Search, explicitFiles: set<Path>, paths: set<Path>) {
    forall p {:trigger p in paths} :: p in paths ==> ToFind(search, explicitFiles, p)
  }

  ghost predicate AllReachable(search: Search, paths: set<Path>) {
    forall p {:trigger p in paths} :: p in paths ==> ReachableDirectory(search, p)
  }

  ghost predicate ListingsPermitted(search: Search, options: Options) {
    forall d {:trigger ReachableDirectory(search, d)} :: ReachableDirectory(search, d) ==>
      d in search.world.listing && PermittedListing(options, d, Listed(search.world, d))
  }

  ghost predicate DepthsPermitted(search: Search, options: Options) {
    forall d, depth {:trigger IsDepth(search, d, depth)} :: IsDepth(search, d, depth) ==>
      Within(options.maxDepth, depth)
  }

  ghost predicate DirectoriesPermitted(search: Search, options: Options) {
    forall s {:trigger AllReachable(search, s)} :: AllReachable(search, s) ==> Within(options.maxDirectories, |s|)
  }

  ghost predicate FilesPermitted(search: Search, options: Options, explicitFiles: set<Path>) {
    forall s {:trigger AllToFind(search, explicitFiles, s)} :: AllToFind(search, explicitFiles, s) ==>
      Within(options.maxFiles, |s|)
  }

  /** Nothing reachable is unreadable, rejected, too deep, too long or too many. */
  ghost predicate Permitted(search: Search, options: Options, explicitFiles: set<Path>) {
    var holds := ListingsPermitted(search, options) && DepthsPermitted(search, options)
      && DirectoriesPermitted(search, options)
                 && FilesPermitted(search, options, explicitFiles);
    holds
  }

  /** There is room for a file: it is known already, or the table is not full. */
  predicate FileFits(options: Options, files: seq<Row<bool>>, path: Path) {
    path in AsMap(files) || options.maxFiles == 0 || |files| < options.maxFiles
  }

  predicate DirectoryFits(options: Options, rows: seq<Row<nat>>, path: Path, depth: nat) {
    || path in PathsOf(rows)
    || (Within(options.maxDepth, depth) && (options.maxDirectories == 0 || |rows| < options.maxDirectories))
  }

  predicate ChildFits(options: Options, rows: seq<Row<nat>>, files: seq<Row<bool>>, directory: Path, depth: nat,
                      child: Child) {
    && PermittedChild(options, directory, child)
    && (!IsDot(child.name) && child.kind == Regular ==> FileFits(options, files, Join(directory, child.name)))
    && (!IsDot(child.name) && child.kind == Directory && options.recursive ==>
          DirectoryFits(options, rows, Join(directory, child.name), depth + 1))
  }

  /** The tables respect every limit. */
  predicate Limited(options: Options, rows: seq<Row<nat>>, files: seq<Row<bool>>) {
    && Within(options.maxDirectories, |rows|) && Within(options.maxFiles, |files|)
    && forall i {:trigger rows[i]} :: 0 <= i < |rows| ==> Within(options.maxDepth, rows[i].tag)
  }

  lemma {:induction false} RowsAreDistinct<T>(rows: seq<Row<T>>)
    requires Unique(rows)
    ensures |PathSet(rows)| == |rows|
  {
    if rows != [] {
      var front, last := rows[..|rows| - 1], rows[|rows| - 1];
      UniqueFront(rows);
      RowsAreDistinct(front);
      assert rows == front + [last];
      PathSetAppends(front, last);
      assert last.path !in PathsOf(front);
    }
  }

  lemma FileKeys(files: seq<Row<bool>>)
    requires Unique(files)
    ensures AsMap(files).Keys == PathSet(files) && |AsMap(files).Keys| == |files|
  {
    RowsAreDistinct(files);
    forall p ensures p in AsMap(files).Keys <==> p in PathSet(files) {
      AsMapKeys(files, p);
    }
  }

  lemma {:induction false} IsAChild(directory: Path, children: seq<Child>, i: nat)
    requires i < |children| && !IsDot(children[i].name)
    ensures Join(directory, children[i].name) in Children(directory, children, children[i].kind)
    decreases |children|
  {
    if i < |children| - 1 {
      IsAChild(directory, children[..|children| - 1], i);
    }
  }

  lemma TooManyFiles(search: Search, options: Options, explicitFiles: set<Path>, files: seq<Row<bool>>, path: Path)
    requires Unique(files) && AllToFind(search, explicitFiles, AsMap(files).Keys) && ToFind(search, explicitFiles, path)
    requires !FileFits(options, files, path)
    ensures !Permitted(search, options, explicitFiles)
  {
    FileKeys(files);
    var all := AsMap(files).Keys + {path};
    assert AllToFind(search, explicitFiles, all) && |all| == |files| + 1;
  }

  lemma TooManyDirectories(search: Search, options: Options, explicitFiles: set<Path>, rows: seq<Row<nat>>, path: Path)
    requires Unique(rows) && Ordered(search, rows) && ReachableDirectory(search, path) && path !in PathSet(rows)
    requires options.maxDirectories != 0 && options.maxDirectories <= |rows|
    ensures !Permitted(search, options, explicitFiles)
  {
    RowsAreDistinct(rows);
    QueueOnlyReachable(search, rows);
    var all := PathSet(rows) + {path};
    assert AllReachable(search, all) && |all| == |rows| + 1;
    assert !DirectoriesPermitted(search, options);
  }

  lemma NoRoom(search: Search, options: Options, explicitFiles: set<Path>, rows: seq<Row<nat>>, current: nat,
               path: Path)
    requires Unique(rows) && current < |rows| && Ordered(search, rows) && Expanded(search, rows, current)
    requires path in SubDirectories(search, rows[current].path)
    requires !DirectoryFits(options, rows, path, rows[current].tag + 1)
    ensures !Permitted(search, options, explicitFiles)
  {
    var depth := rows[current].tag + 1;
    assert path !in PathSet(rows);
    NewChildDepth(search, rows, current, path);
    if Within(options.maxDepth, depth) {
      TooManyDirectories(search, options, explicitFiles, rows, path);
    } else {
      assert IsDepth(search, path, depth) && !DepthsPermitted(search, options);
    }
  }

  lemma QueueOnlyReachable(search: Search, rows: seq<Row<nat>>)
    requires Ordered(search, rows)
    ensures AllReachable(search, PathSet(rows))
  {
    forall p | p in PathSet(rows) ensures ReachableDirectory(search, p) {
      var i :| 0 <= i < |rows| && PathsOf(rows)[i] == p;
      assert IsDepth(search, rows[i].path, rows[i].tag);
    }
  }

  /** A queued directory that cannot be read shows that the whole search is not permitted. */
  lemma Unlisted(search: Search, options: Options, explicitFiles: set<Path>, rows: seq<Row<nat>>, current: nat)
    requires Ordered(search, rows) && current < |rows| && rows[current].path !in search.world.listing
    ensures !Permitted(search, options, explicitFiles)
  {
    QueueOnlyReachable(search, rows);
    assert PathsOf(rows)[current] in PathSet(rows);
    assert !ListingsPermitted(search, options);
  }

  /** An entry that does not fit shows that the whole search is not permitted. */
  lemma Misfit(search: Search, options: Options, explicitFiles: set<Path>, rows: seq<Row<nat>>, files: seq<Row<bool>>,
               current: nat, i: nat)
    requires search.recursive == options.recursive && Unique(rows) && Unique(files) && Scanning(search, rows, current)
    requires AllToFind(search, explicitFiles, AsMap(files).Keys)
    requires i < |Listed(search.world, rows[current].path)|
    requires !ChildFits(options, rows, files, rows[current].path, rows[current].tag,
                        Listed(search.world, rows[current].path)[i])
    ensures !Permitted(search, options, explicitFiles)
  {
    var directory := rows[current].path;
    var child := Listed(search.world, directory)[i];
    var path := Join(directory, child.name);
    QueueOnlyReachable(search, rows);
    assert PathsOf(rows)[current] in PathSet(rows);
    if PermittedChild(options, directory, child) {
      IsAChild(directory, Listed(search.world, directory), i);
      if child.kind == Regular {
        assert path in RegularFiles(search.world, directory);
        TooManyFiles(search, options, explicitFiles, files, path);
      } else {
        NoRoom(search, options, explicitFiles, rows, current, path);
      }
    }
  }

  /** The files of the scanned part of a search are to be found. */
  lemma FoundSoFar(search: Search, explicitFiles: set<Path>, found: set<Path>, directory: Path, i: nat)
    requires AllToFind(search, explicitFiles, found) && ReachableDirectory(search, directory)
    requires i <= |Listed(search.world, directory)|
    ensures AllToFind(search, explicitFiles,
                      explicitFiles + (found + Children(directory, Listed(search.world, directory)[..i], Regular)))
  {
    PartOfTheChildren(directory, Listed(search.world, directory), i, Regular);
    assert Children(directory, Listed(search.world, directory)[..i], Regular) <= RegularFiles(search.world, directory);
  }

  function NewDirectory(search: Search, directory: Path, child: Child): set<Path> {
    if search.recursive && !IsDot(child.name) && child.kind == Directory then {Join(directory, child.name)} else {}
  }

  function FilesWith(files: map<Path, bool>, directory: Path, child: Child): map<Path, bool> {
    if !IsDot(child.name) && child.kind == Regular then WithFile(files, Join(directory, child.name), false) else files
  }

  /** One directory entry below the directory being scanned. */
  method ScanChild(search: Search, options: Options, ghost current: nat, directory: Path, depth: nat, child: Child,
                   queue: PathTable<nat>, files: PathTable<bool>) returns (status: Status)
    requires Apart(queue, files) && search.recursive == options.recursive
    requires Scanning(search, queue.rows, current) && queue.rows[current] == Row(directory, depth)
    requires NewDirectory(search, directory, child) <= SubDirectories(search, directory)
    requires Limited(options, queue.rows, files.rows)
    modifies queue, queue.slots, files, files.slots
    ensures Apart(queue, files)
    ensures Rehashed(queue) && Rehashed(files)
    ensures Scanning(search, queue.rows, current) && old(queue.rows) <= queue.rows
    ensures status == Ok ==> PathSet(queue.rows) == PathSet(old(queue.rows)) + NewDirectory(search, directory, child)
    ensures status == Ok ==> AsMap(files.rows) == FilesWith(old(AsMap(files.rows)), directory, child)
    ensures status == Ok <==> old(ChildFits(options, queue.rows, files.rows, directory, depth, child))
    ensures Limited(options, queue.rows, files.rows)
  {
    status := Ok;
    if IsDot(child.name) {
      return;
    }
    var path := Join(directory, child.name);
    if options.maxPathBytes != 0 && |path| > options.maxPathBytes {
      return PathLimitExceeded;
    }
    if child.kind == Regular {
      status := AddFile(files, path, false, options.maxFiles);
    } else if child.kind == Directory && options.recursive {
      status := QueueChild(search, options, current, directory, depth, path, queue, files.rows);
    } else if child.kind == Link && options.rejectLinks {
      status := LinkRejected;
    } else if child.kind == Other && options.rejectOthers {
      status := UnsupportedNode;
    }
  }

  /** Queue a subdirectory of the directory being scanned: the depth of a known one is never lowered. */
  method QueueChild(search: Search, options: Options, ghost current: nat, directory: Path, depth: nat, path: Path,
                    queue: PathTable<nat>, ghost files: seq<Row<bool>>) returns (status: Status)
    requires queue.Valid() && Scanning(search, queue.rows, current) && queue.rows[current] == Row(directory, depth)
    requires path in SubDirectories(search, directory) && Limited(options, queue.rows, files)
    modifies queue, queue.slots
    ensures queue.Valid() && Rehashed(queue)
    ensures Scanning(search, queue.rows, current) && old(queue.rows) <= queue.rows
    ensures status == Ok ==> PathSet(queue.rows) == PathSet(old(queue.rows)) + {path}
    ensures status == Ok <==> old(DirectoryFits(options, queue.rows, path, depth + 1))
    ensures Limited(options, queue.rows, files)
  {
    ghost var before := queue.rows;
    status := QueueDirectory(queue, path, depth + 1, options.maxDirectories, options.maxDepth);
    if path in PathsOf(before) {
      assert forall i {:trigger before[i]} :: 0 <= i < |before| ==> queue.rows[i] == before[i];
      assert queue.rows == before && path in PathSet(before);
    } else if status == Ok {
      var row := Row(path, depth + 1);
      NewChildDepth(search, before, current, path);
      PathSetAppends(before, row);
      StillExpanded(search, before, before + [row], current);
      StillOrdered(search, before, row);
    }
  }

  /** The subdirectories among the first `i` entries of a listing. */
  function PartlyListed(search: Search, directory: Path, i: nat): set<Path>
    requires i <= |Listed(search.world, directory)|
  {
    if search.recursive then Children(directory, Listed(search.world, directory)[..i], Directory) else {}
  }

  lemma NextListed(search: Search, directory: Path, i: nat, files: map<Path, bool>, explicitFiles: set<Path>,
                   found: set<Path>)
    requires i < |Listed(search.world, directory)|
    requires FilesFound(files, explicitFiles,
                        found + Children(directory, Listed(search.world, directory)[..i], Regular))
    ensures var child := Listed(search.world, directory)[i];
            && PartlyListed(search, directory, i + 1) ==
              PartlyListed(search, directory, i) + NewDirectory(search, directory, child)
            && NewDirectory(search, directory, child) <= SubDirectories(search, directory)
            && FilesFound(FilesWith(files, directory, child), explicitFiles,
                          found + Children(directory, Listed(search.world, directory)[..i + 1], Regular))
  {
    var children := Listed(search.world, directory);
    NextChild(directory, children, i, Directory);
    NextChild(directory, children, i, Regular);
    PartOfTheChildren(directory, children, i + 1, Directory);
    var before := found + Children(directory, children[..i], Regular);
    var path := Join(directory, children[i].name);
    FoundOneMore(files, explicitFiles, before, path);
    assert before + {path} == found + (Children(directory, children[..i], Regular) + {path});
    assert before + {} == before;
  }

  lemma WholeListing(search: Search, directory: Path)
    ensures var children := Listed(search.world, directory);
            && PartlyListed(search, directory, 0) == {} && Children(directory, children[..0], Regular) == {}
            && PartlyListed(search, directory, |children|) == SubDirectories(search, directory)
            && Children(directory, children[..|children|], Regular) == RegularFiles(search.world, directory)
  {
    var children := Listed(search.world, directory);
    assert children[..|children|] == children;
  }

  /** What holds once the first `i` entries of the directory at `current` are scanned. */
  ghost predicate PartScanned(search: Search, options: Options, rows: seq<Row<nat>>, files: seq<Row<bool>>,
                              current: nat, directory: Path, i: nat, explicitFiles: set<Path>, found: set<Path>)
  {
    var children := Listed(search.world, directory);
    var holds :=
      && i <= |children| && Scanning(search, rows, current) && rows[current].path == directory
      && PartlyListed(search, directory, i) <= PathSet(rows)
      && FilesFound(AsMap(files), explicitFiles, found + Children(directory, children[..i], Regular))
      && Limited(options, rows, files) && PermittedListing(options, directory, children[..i]);
    holds
  }

  lemma NothingScanned(search: Search, options: Options, rows: seq<Row<nat>>, files: seq<Row<bool>>, current: nat,
                       directory: Path, explicitFiles: set<Path>, found: set<Path>)
    requires Scanning(search, rows, current) && rows[current].path == directory
    requires FilesFound(AsMap(files), explicitFiles, found) && Limited(options, rows, files)
    ensures PartScanned(search, options, rows, files, current, directory, 0, explicitFiles, found)
  {
    WholeListing(search, directory);
    assert found + {} == found;
  }

  lemma AllScanned(search: Search, options: Options, rows: seq<Row<nat>>, files: seq<Row<bool>>, current: nat,
                   directory: Path, explicitFiles: set<Path>, found: set<Path>)
    requires PartScanned(search, options, rows, files, current, directory, |Listed(search.world, directory)|,
                         explicitFiles, found)
    ensures Scanning(search, rows, current) && Expanded(search, rows, current + 1)
    ensures FilesFound(AsMap(files), explicitFiles, found + RegularFiles(search.world, directory))
    ensures Limited(options, rows, files) && PermittedListing(options, directory, Listed(search.world, directory))
  {
    var children := Listed(search.world, directory);
    WholeListing(search, directory);
    assert children[..|children|] == children;
    OneMoreExpanded(search, rows, current, directory);
  }

  lemma NextPermitted(options: Options, directory: Path, children: seq<Child>, i: nat)
    requires i < |children| && PermittedListing(options, directory, children[..i])
      && PermittedChild(options, directory, children[i])
    ensures PermittedListing(options, directory, children[..i + 1])
  {
    assert children[..i + 1] == children[..i] + [children[i]];
  }

  /** One turn of the listing loop. */
  method ScanEntry(search: Search, options: Options, ghost current: nat, directory: Path, depth: nat, i: nat,
                   queue: PathTable<nat>, files: PathTable<bool>, ghost explicitFiles: set<Path>,
                   ghost found: set<Path>)
    returns (status: Status)
    requires Apart(queue, files) && search.recursive == options.recursive && AllToFind(search, explicitFiles, found)
    requires PartScanned(search, options, queue.rows, files.rows, current, directory, i, explicitFiles, found)
    requires i < |Listed(search.world, directory)| && current < |queue.rows| && queue.rows[current].tag == depth
    modifies queue, queue.slots, files, files.slots
    ensures Apart(queue, files)
    ensures Rehashed(queue) && Rehashed(files)
    ensures Scanning(search, queue.rows, current) && old(queue.rows) <= queue.rows
      && Limited(options, queue.rows, files.rows)
    ensures status == Ok ==>
              PartScanned(search, options, queue.rows, files.rows, current, directory, i + 1, explicitFiles, found)
    ensures status != Ok ==> !Permitted(search, options, explicitFiles)
  {
    var children := Listed(search.world, directory);
    NextListed(search, directory, i, AsMap(files.rows), explicitFiles, found);
    if !ChildFits(options, queue.rows, files.rows, directory, depth, children[i]) {
      QueueOnlyReachable(search, queue.rows);
      assert PathsOf(queue.rows)[current] in PathSet(queue.rows);
      FoundSoFar(search, explicitFiles, found, directory, i);
      Misfit(search, options, explicitFiles, queue.rows, files.rows, current, i);
    } else {
      NextPermitted(options, directory, children, i);
    }
    status := ScanChild(search, options, current, directory, depth, children[i], queue, files);
  }

  /** `scan_directory`: afterwards the directory is expanded and its regular files are known, or something
      shows that the search is not permitted. */
  method ScanDirectory(search: Search, options: Options, ghost current: nat, directory: Path, depth: nat,
                       queue: PathTable<nat>, files: PathTable<bool>, ghost explicitFiles: set<Path>,
                       ghost found: set<Path>)
    returns (status: Status)
    requires Apart(queue, files) && search.recursive == options.recursive
    requires Scanning(search, queue.rows, current) && queue.rows[current] == Row(directory, depth)
    requires FilesFound(AsMap(files.rows), explicitFiles, found) && AllToFind(search, explicitFiles, found)
    requires Limited(options, queue.rows, files.rows)
    modifies queue, queue.slots, files, files.slots
    ensures Apart(queue, files)
    ensures Rehashed(queue) && Rehashed(files)
    ensures Scanning(search, queue.rows, current) && old(queue.rows) <= queue.rows
    ensures status == Ok ==> directory in search.world.listing && Expanded(search, queue.rows, current + 1)
    ensures status == Ok ==> FilesFound(AsMap(files.rows), explicitFiles, found + RegularFiles(search.world, directory))
    ensures Limited(options, queue.rows, files.rows)
    ensures status == Ok ==> PermittedListing(options, directory, Listed(search.world, directory))
    ensures status != Ok ==> !Permitted(search, options, explicitFiles)
  {
    if directory !in search.world.listing {
      Unlisted(search, options, explicitFiles, queue.rows, current);
      return IoError;
    }
    status := Ok;
    ghost var before := queue.rows;
    var children := Listed(search.world, directory);
    NothingScanned(search, options, queue.rows, files.rows, current, directory, explicitFiles, found);
    for i := 0 to |children|
      invariant Apart(queue, files) && status == Ok
      invariant Rehashed(queue) && Rehashed(files)
      invariant before <= queue.rows
      invariant PartScanned(search, options, queue.rows, files.rows, current, directory, i, explicitFiles, found)
    {
      status := ScanEntry(search, options, current, directory, depth, i, queue, files, explicitFiles, found);
      if status != Ok {
        return;
      }
    }
    AllScanned(search, options, queue.rows, files.rows, current, directory, explicitFiles, found);
  }

  lemma OneMoreExpanded(search: Search, rows: seq<Row<nat>>, current: nat, directory: Path)
    requires current < |rows| && rows[current].path == directory && Expanded(search, rows, current)
    requires SubDirectories(search, directory) <= PathSet(rows)
    ensures Expanded(search, rows, current + 1)
  {
  }
}
