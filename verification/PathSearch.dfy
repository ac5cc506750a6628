/** The whole of `common_path_discover` (src/common/path_discovery.c). qsort is a parameter that must
    return an ordered permutation of its argument. */
module PathSearch {
  import opened PathIndex
  import opened PathTables
  import opened PathResults
  import opened PathDiscovery
  import PathChains

  // ----- The breadth-first loop -----

  /** What holds between two directories: the first `next` rows are scanned. */
  ghost predicate Progress(search: Search, rows: seq<Row<nat>>, next: nat) {
    && next <= |rows| && Ordered(search, rows) && Expanded(search, rows, next)
    && NoDeeperThan(rows, if next == 0 then 0 else rows[next - 1].tag + 1)
    && forall i {:trigger rows[i]} :: 0 <= i < next ==> rows[i].path in search.world.listing
  }

  lemma ReadyToScan(search: Search, rows: seq<Row<nat>>, next: nat)
    requires Progress(search, rows, next) && next < |rows|
    ensures Scanning(search, rows, next)
  {
    if next > 0 {
      assert InOrder(rows, next - 1, next);
    }
  }

  lemma ProgressMade(search: Search, before: seq<Row<nat>>, rows: seq<Row<nat>>, next: nat)
    requires Progress(search, before, next) && next < |before| && before <= rows
    requires Scanning(search, rows, next) && Expanded(search, rows, next + 1) && rows[next].path in search.world.listing
    ensures Progress(search, rows, next + 1)
  {
    forall i | 0 <= i < next + 1 ensures rows[i].path in search.world.listing {
      assert i < next ==> rows[i] == before[i];
    }
  }

  /** The scanned directories are distinct and listed, so there are no more of them than listings. */
  lemma {:induction false} ScannedAreListed(rows: seq<Row<nat>>, n: nat, listed: set<Path>)
    requires Unique(rows) && n <= |rows| && forall i {:trigger rows[i]} :: 0 <= i < n ==> rows[i].path in listed
    ensures n <= |listed|
  {
    if n > 0 {
      var last := rows[n - 1].path;
      forall i | 0 <= i < n - 1 ensures rows[i].path in listed - {last} {
        assert Differ(rows, i, n - 1);
      }
      ScannedAreListed(rows, n - 1, listed - {last});
    }
  }

  /** The rows already scanned, as a set. */
  function Scanned(rows: seq<Row<nat>>, n: nat): set<Path>
    requires n <= |rows|
  {
    PathSet(rows[..n])
  }

  lemma ScannedOneMore(before: seq<Row<nat>>, rows: seq<Row<nat>>, n: nat)
    requires n < |before| && before <= rows
    ensures Scanned(rows, n + 1) == Scanned(before, n) + {before[n].path}
  {
    assert rows[..n + 1] == before[..n] + [before[n]];
    PathSetAppends(before[..n], before[n]);
  }

  /** The files known once the first `n` rows are scanned. */
  ghost predicate FilesOfRows(search: Search, rows: seq<Row<nat>>, n: nat, files: map<Path, bool>,
                              explicitFiles: set<Path>)
    requires n <= |rows|
  {
    FilesFound(files, explicitFiles, FilesUnder(search.world, Scanned(rows, n)))
  }

  lemma FilesOfNextRow(search: Search, before: seq<Row<nat>>, rows: seq<Row<nat>>, n: nat, files: map<Path, bool>,
                       explicitFiles: set<Path>)
    requires n < |before| && before <= rows
    requires FilesFound(files, explicitFiles,
                        FilesUnder(search.world, Scanned(before, n)) + RegularFiles(search.world, before[n].path))
    ensures FilesOfRows(search, rows, n + 1, files, explicitFiles)
  {
    ScannedOneMore(before, rows, n);
    FilesOfOneMore(search.world, Scanned(before, n), before[n].path);
  }

  /** After the last row, the known files are exactly those to be found. */
  lemma FoundIsToFind(search: Search, rows: seq<Row<nat>>, files: map<Path, bool>, explicitFiles: set<Path>, path: Path)
    requires Progress(search, rows, |rows|) && FilesOfRows(search, rows, |rows|, files, explicitFiles)
    ensures path in files <==> ToFind(search, explicitFiles, path)
  {
    assert rows[..|rows|] == rows;
    forall d ensures d in PathSet(rows) <==> ReachableDirectory(search, d) {
      QueueIsReachable(search, rows, d);
    }
    assert path in files <==> path in explicitFiles || path in FilesUnder(search.world, PathSet(rows));
  }

  /** The loop's whole invariant about its rows and files. */
  ghost predicate InLoop(search: Search, rows: seq<Row<nat>>, n: nat, files: map<Path, bool>,
                         explicitFiles: set<Path>) {
    var holds := Progress(search, rows, n) && FilesOfRows(search, rows, n, files, explicitFiles);
    holds
  }

  /** What the options have let pass so far: every scanned listing, and the sizes of the tables. */
  ghost predicate Passed(search: Search, options: Options, rows: seq<Row<nat>>, n: nat, files: seq<Row<bool>>) {
    var holds :=
      && n <= |rows| && Limited(options, rows, files)
      && forall i {:trigger rows[i]} :: 0 <= i < n ==>
        PermittedListing(options, rows[i].path, Listed(search.world, rows[i].path));
    holds
  }

  lemma NextPassed(search: Search, options: Options, before: seq<Row<nat>>, rows: seq<Row<nat>>, n: nat,
                   was: seq<Row<bool>>, files: seq<Row<bool>>)
    requires Passed(search, options, before, n, was) && n < |before| && before <= rows && Limited(options, rows, files)
    requires PermittedListing(options, before[n].path, Listed(search.world, before[n].path))
    ensures Passed(search, options, rows, n + 1, files)
  {
    forall i | 0 <= i < n + 1 ensures PermittedListing(options, rows[i].path, Listed(search.world, rows[i].path)) {
      assert rows[i] == before[i];
    }
  }

  lemma ScannedToFind(search: Search, rows: seq<Row<nat>>, n: nat, explicitFiles: set<Path>)
    requires Ordered(search, rows) && n <= |rows|
    ensures AllToFind(search, explicitFiles, FilesUnder(search.world, Scanned(rows, n)))
  {
    QueueOnlyReachable(search, rows);
    assert Scanned(rows, n) <= PathSet(rows) by {
      forall i | 0 <= i < n ensures PathsOf(rows[..n])[i] in PathSet(rows) {
        assert PathsOf(rows[..n])[i] == PathsOf(rows)[i];
      }
    }
  }

  /** One turn of the loop: scan the next queued directory. */
  method ScanNext(search: Search, options: Options, queue: PathTable<nat>, files: PathTable<bool>, next: nat,
                  ghost explicitFiles: set<Path>) returns (status: Status)
    requires Apart(queue, files) && search.recursive == options.recursive
    requires next < |queue.rows| && InLoop(search, queue.rows, next, AsMap(files.rows), explicitFiles)
    requires Passed(search, options, queue.rows, next, files.rows)
    modifies queue, queue.slots, files, files.slots
    ensures Apart(queue, files)
    ensures Rehashed(queue) && Rehashed(files)
    ensures |old(queue.rows)| <= |queue.rows|
    ensures status == Ok ==> next < |search.world.listing.Keys|
    ensures status == Ok ==> InLoop(search, queue.rows, next + 1, AsMap(files.rows), explicitFiles)
    ensures status == Ok ==> Passed(search, options, queue.rows, next + 1, files.rows)
    ensures status != Ok ==> !Permitted(search, options, explicitFiles)
  {
    ghost var before, was := queue.rows, files.rows;
    var current := queue.rows[next];
    ReadyToScan(search, before, next);
    ScannedToFind(search, before, next, explicitFiles);
    status := ScanDirectory(search, options, next, current.path, current.tag, queue, files, explicitFiles,
                            FilesUnder(search.world, Scanned(before, next)));
    if status == Ok {
      ProgressMade(search, before, queue.rows, next);
      FilesOfNextRow(search, before, queue.rows, next, AsMap(files.rows), explicitFiles);
      ScannedAreListed(queue.rows, next + 1, search.world.listing.Keys);
      NextPassed(search, options, before, queue.rows, next, was, files.rows);
    }
  }

  /** The finished tables show that the search was permitted. */
  lemma TraversedIsPermitted(search: Search, options: Options, rows: seq<Row<nat>>, files: seq<Row<bool>>,
                             explicitFiles: set<Path>)
    requires Unique(rows) && Unique(files)
    requires InLoop(search, rows, |rows|, AsMap(files), explicitFiles) && Passed(search, options, rows, |rows|, files)
    ensures Permitted(search, options, explicitFiles)
  {
    forall d | ReachableDirectory(search, d)
      ensures d in PathSet(rows) && d in search.world.listing && PermittedListing(options, d, Listed(search.world, d))
    {
      QueueIsReachable(search, rows, d);
      var i :| 0 <= i < |rows| && PathsOf(rows)[i] == d;
      assert rows[i].path == d;
    }
    DepthsWithin(search, options, rows, files);
    RowsAreDistinct(rows);
    forall s | AllReachable(search, s) ensures Within(options.maxDirectories, |s|) {
      SubsetSize(s, PathSet(rows));
    }
    FilesWithin(search, options, rows, files, explicitFiles);
  }

  lemma DepthsWithin(search: Search, options: Options, rows: seq<Row<nat>>, files: seq<Row<bool>>)
    requires Progress(search, rows, |rows|) && Limited(options, rows, files)
    ensures DepthsPermitted(search, options)
  {
    forall d, depth | IsDepth(search, d, depth) ensures Within(options.maxDepth, depth) {
      QueueIsReachable(search, rows, d);
      var i :| 0 <= i < |rows| && PathsOf(rows)[i] == d;
      assert IsDepth(search, rows[i].path, rows[i].tag);
      DepthIsAtMost(search, d, depth, rows[i].tag);
      DepthIsAtMost(search, d, rows[i].tag, depth);
    }
  }

  lemma FilesWithin(search: Search, options: Options, rows: seq<Row<nat>>, files: seq<Row<bool>>,
                    explicitFiles: set<Path>)
    requires Unique(files) && Limited(options, rows, files) && Progress(search, rows, |rows|)
    requires FilesOfRows(search, rows, |rows|, AsMap(files), explicitFiles)
    ensures FilesPermitted(search, options, explicitFiles)
  {
    FileKeys(files);
    forall s | AllToFind(search, explicitFiles, s) ensures Within(options.maxFiles, |s|) {
      forall p | p in s ensures p in AsMap(files).Keys {
        FoundIsToFind(search, rows, AsMap(files), explicitFiles, p);
      }
      SubsetSize(s, AsMap(files).Keys);
    }
  }

  /** The breadth-first loop succeeds exactly when the whole search is permitted. */
  method Traverse(search: Search, options: Options, queue: PathTable<nat>, files: PathTable<bool>,
                  ghost explicitFiles: set<Path>) returns (status: Status)
    requires Apart(queue, files) && search.recursive == options.recursive
    requires InLoop(search, queue.rows, 0, AsMap(files.rows), explicitFiles)
    requires Passed(search, options, queue.rows, 0, files.rows)
    modifies queue, queue.slots, files, files.slots
    ensures queue.Valid() && files.Valid()
    ensures status == Ok <==> Permitted(search, options, explicitFiles)
    ensures status == Ok ==> InLoop(search, queue.rows, |queue.rows|, AsMap(files.rows), explicitFiles)
  {
    var next := 0;
    status := Ok;
    while next < |queue.rows|
      invariant Apart(queue, files) && status == Ok
      invariant Rehashed(queue) && Rehashed(files)
      invariant next <= |queue.rows| && InLoop(search, queue.rows, next, AsMap(files.rows), explicitFiles)
      invariant Passed(search, options, queue.rows, next, files.rows)
      decreases |search.world.listing.Keys| - next
    {
      status := ScanNext(search, options, queue, files, next, explicitFiles);
      if status != Ok {
        return;
      }
      next := next + 1;
    }
    TraversedIsPermitted(search, options, queue.rows, files.rows, explicitFiles);
  }

  // ----- The explicit inputs -----

  /** The inputs of one kind. */
  function InputsOf(world: World, inputs: seq<Path>, kind: Kind): set<Path> {
    set i | 0 <= i < |inputs| && inputs[i] in world.kinds && world.kinds[inputs[i]] == kind :: inputs[i]
  }

  lemma NextInput(world: World, inputs: seq<Path>, i: nat, kind: Kind)
    requires i < |inputs|
    ensures InputsOf(world, inputs[..i + 1], kind) == InputsOf(world, inputs[..i], kind)
            + (if inputs[i] in world.kinds && world.kinds[inputs[i]] == kind then {inputs[i]} else {})
  {
    assert inputs[..i + 1] == inputs[..i] + [inputs[i]];
  }

  /** Inputs that can be discovered at all. */
  predicate Acceptable(world: World, inputs: seq<Path>) {
    forall i {:trigger inputs[i]} :: 0 <= i < |inputs| ==>
      inputs[i] != [] && inputs[i] in world.kinds
        && (world.kinds[inputs[i]] == Regular || world.kinds[inputs[i]] == Directory)
  }

  /** What the options ask of the inputs themselves. */
  predicate InputsFit(world: World, options: Options, inputs: seq<Path>) {
    && Acceptable(world, inputs)
    && (forall i {:trigger inputs[i]} :: 0 <= i < |inputs| ==> Within(options.maxPathBytes, |inputs[i]|))
    && Within(options.maxDirectories, |InputsOf(world, inputs, Directory)|)
    && Within(options.maxFiles, |InputsOf(world, inputs, Regular)|)
  }

  /** The tables after the first inputs: roots at depth zero, and explicit files. */
  ghost predicate Taken(options: Options, rows: seq<Row<nat>>, files: seq<Row<bool>>, roots: set<Path>,
                        explicitFiles: set<Path>) {
    var holds := PathSet(rows) == roots && NoDeeperThan(rows, 0) && FilesFound(AsMap(files), explicitFiles, {})
                 && Limited(options, rows, files);
    holds
  }

  /** Whether one more input fits into the tables. */
  predicate InputFits(world: World, options: Options, rows: seq<Row<nat>>, files: seq<Row<bool>>, input: Path) {
    && input != [] && Within(options.maxPathBytes, |input|)
    && input in world.kinds && (world.kinds[input] == Regular || world.kinds[input] == Directory)
    && (world.kinds[input] == Regular ==> FileFits(options, files, input))
    && (world.kinds[input] == Directory ==> DirectoryFits(options, rows, input, 0))
  }

  method TakeInput(world: World, options: Options, input: Path, queue: PathTable<nat>, files: PathTable<bool>,
                   ghost roots: set<Path>, ghost explicitFiles: set<Path>) returns (status: Status)
    requires Apart(queue, files)
    requires Taken(options, queue.rows, files.rows, roots, explicitFiles)
    modifies queue, queue.slots, files, files.slots
    ensures Apart(queue, files)
    ensures Rehashed(queue) && Rehashed(files)
    ensures status == Ok <==> old(InputFits(world, options, queue.rows, files.rows, input))
    ensures status == Ok ==> Taken(options, queue.rows, files.rows,
                                   roots + (if world.kinds[input] == Directory then {input} else {}),
                                   explicitFiles + (if world.kinds[input] == Regular then {input} else {}))
  {
    if input == [] {
      return InvalidArgument;
    }
    if options.maxPathBytes != 0 && |input| > options.maxPathBytes {
      return PathLimitExceeded;
    }
    if input !in world.kinds {
      return NotFound;
    }
    var kind := world.kinds[input];
    if kind == Link {
      return LinkRejected;
    }
    if kind == Other {
      return UnsupportedNode;
    }
    if kind == Regular {
      status := TakeInputFile(options, input, queue, files, roots, explicitFiles);
      assert roots + {} == roots;
    } else {
      status := TakeInputDirectory(options, input, queue, files, roots, explicitFiles);
      assert explicitFiles + {} == explicitFiles;
    }
  }

  method TakeInputFile(options: Options, input: Path, queue: PathTable<nat>, files: PathTable<bool>,
                       ghost roots: set<Path>, ghost explicitFiles: set<Path>) returns (status: Status)
    requires Apart(queue, files) && input != []
    requires Taken(options, queue.rows, files.rows, roots, explicitFiles)
    modifies files, files.slots
    ensures Apart(queue, files)
    ensures Rehashed(queue) && Rehashed(files)
    ensures status == Ok <==> old(FileFits(options, files.rows, input))
    ensures status == Ok ==> Taken(options, queue.rows, files.rows, roots, explicitFiles + {input})
  {
    GivenOneMore(AsMap(files.rows), explicitFiles, input);
    status := AddFile(files, input, true, options.maxFiles);
  }

  method TakeInputDirectory(options: Options, input: Path, queue: PathTable<nat>, files: PathTable<bool>,
                            ghost roots: set<Path>, ghost explicitFiles: set<Path>) returns (status: Status)
    requires Apart(queue, files) && input != []
    requires Taken(options, queue.rows, files.rows, roots, explicitFiles)
    modifies queue, queue.slots
    ensures Apart(queue, files)
    ensures Rehashed(queue) && Rehashed(files)
    ensures status == Ok <==> old(DirectoryFits(options, queue.rows, input, 0))
    ensures status == Ok ==> Taken(options, queue.rows, files.rows, roots + {input}, explicitFiles)
  {
    ghost var before := queue.rows;
    status := QueueDirectory(queue, input, 0, options.maxDirectories, options.maxDepth);
    RootQueued(before, queue.rows, input, status == Ok);
  }

  lemma RootQueued(before: seq<Row<nat>>, rows: seq<Row<nat>>, input: Path, ok: bool)
    requires NoDeeperThan(before, 0)
    requires input in PathsOf(before) ==> |rows| == |before| && forall i {:trigger rows[i]} :: 0 <= i < |rows| ==>
               rows[i] == if before[i].path == input && 0 < before[i].tag then Row(input, 0) else before[i]
    requires input !in PathsOf(before) && ok ==> rows == before + [Row(input, 0)]
    ensures ok ==> NoDeeperThan(rows, 0) && PathSet(rows) == PathSet(before) + {input}
  {
    if input in PathsOf(before) {
      assert rows == before && input in PathSet(before);
    } else if ok {
      PathSetAppends(before, Row(input, 0));
    }
  }

  lemma SomeInputs(world: World, inputs: seq<Path>, i: nat, kind: Kind)
    requires i < |inputs|
    ensures InputsOf(world, inputs[..i + 1], kind) <= InputsOf(world, inputs, kind)
  {
    forall p | p in InputsOf(world, inputs[..i + 1], kind) ensures p in InputsOf(world, inputs, kind) {
      var k :| 0 <= k < i + 1 && inputs[..i + 1][k] == p;
      assert inputs[k] == p;
    }
  }

  /** An input that does not fit shows that the inputs as a whole do not. */
  lemma InputMisfit(world: World, options: Options, inputs: seq<Path>, i: nat, rows: seq<Row<nat>>,
                    files: seq<Row<bool>>)
    requires i < |inputs| && Unique(rows) && Unique(files) && !InputFits(world, options, rows, files, inputs[i])
    requires Taken(options, rows, files, InputsOf(world, inputs[..i], Directory), InputsOf(world, inputs[..i], Regular))
    ensures !InputsFit(world, options, inputs)
  {
    if InputsFit(world, options, inputs) {
      var kind := world.kinds[inputs[i]];
      NextInput(world, inputs, i, kind);
      SomeInputs(world, inputs, i, kind);
      RowsAreDistinct(rows);
      FileKeys(files);
      assert inputs[i] !in InputsOf(world, inputs[..i], kind);
      SubsetSize(InputsOf(world, inputs[..i + 1], kind), InputsOf(world, inputs, kind));
      assert false;
    }
  }

  /** Once every input is taken the inputs fit. */
  lemma AllInputsFit(world: World, options: Options, inputs: seq<Path>, rows: seq<Row<nat>>, files: seq<Row<bool>>)
    requires Unique(rows) && Unique(files) && Acceptable(world, inputs)
    requires forall i {:trigger inputs[i]} :: 0 <= i < |inputs| ==> Within(options.maxPathBytes, |inputs[i]|)
    requires Taken(options, rows, files, InputsOf(world, inputs, Directory), InputsOf(world, inputs, Regular))
    ensures InputsFit(world, options, inputs)
  {
    RowsAreDistinct(rows);
    FileKeys(files);
  }

  /** The inputs, each classified: all of them are taken exactly when they fit. */
  method TakeInputs(world: World, options: Options, inputs: seq<Path>, queue: PathTable<nat>, files: PathTable<bool>)
    returns (status: Status)
    requires Apart(queue, files) && queue.rows == [] && files.rows == []
    modifies queue, queue.slots, files, files.slots
    ensures Apart(queue, files)
    ensures Rehashed(queue) && Rehashed(files)
    ensures status == Ok <==> InputsFit(world, options, inputs)
    ensures status == Ok ==>
              Taken(options, queue.rows, files.rows, InputsOf(world, inputs, Directory),
                    InputsOf(world, inputs, Regular))
  {
    status := Ok;
    for i := 0 to |inputs|
      invariant Apart(queue, files) && status == Ok
      invariant Rehashed(queue) && Rehashed(files)
      invariant InputsTaken(world, options, inputs, i, queue.rows, files.rows)
    {
      ghost var rows, found := queue.rows, files.rows;
      status := TakeInput(world, options, inputs[i], queue, files, InputsOf(world, inputs[..i], Directory),
                          InputsOf(world, inputs[..i], Regular));
      if status != Ok {
        InputMisfit(world, options, inputs, i, rows, found);
        return;
      }
      OneMoreTaken(world, options, inputs, i, rows, found, queue.rows, files.rows);
    }
    assert inputs[..|inputs|] == inputs;
    AllInputsFit(world, options, inputs, queue.rows, files.rows);
  }

  /** The first `n` inputs are acceptable and taken. */
  ghost predicate InputsTaken(world: World, options: Options, inputs: seq<Path>, n: nat, rows: seq<Row<nat>>,
                              files: seq<Row<bool>>)
  {
    && n <= |inputs| && Acceptable(world, inputs[..n])
    && (forall k {:trigger inputs[k]} :: 0 <= k < n ==> Within(options.maxPathBytes, |inputs[k]|))
    && Taken(options, rows, files, InputsOf(world, inputs[..n], Directory), InputsOf(world, inputs[..n], Regular))
  }

  lemma OneMoreTaken(world: World, options: Options, inputs: seq<Path>, i: nat, rows: seq<Row<nat>>,
                     files: seq<Row<bool>>, rows': seq<Row<nat>>, files': seq<Row<bool>>)
    requires i < |inputs| && InputsTaken(world, options, inputs, i, rows, files)
    requires InputFits(world, options, rows, files, inputs[i])
    requires Taken(options, rows', files',
                   InputsOf(world, inputs[..i], Directory)
                   + (if world.kinds[inputs[i]] == Directory then {inputs[i]} else {}),
                   InputsOf(world, inputs[..i], Regular)
                   + (if world.kinds[inputs[i]] == Regular then {inputs[i]} else {}))
    ensures InputsTaken(world, options, inputs, i + 1, rows', files')
  {
    NextInput(world, inputs, i, Directory);
    NextInput(world, inputs, i, Regular);
    AcceptableOne(world, inputs, i);
  }

  lemma AcceptableOne(world: World, inputs: seq<Path>, i: nat)
    requires i < |inputs| && Acceptable(world, inputs[..i])
    requires inputs[i] != [] && inputs[i] in world.kinds
    requires world.kinds[inputs[i]] == Regular || world.kinds[inputs[i]] == Directory
    ensures Acceptable(world, inputs[..i + 1])
  {
    forall k | 0 <= k < i ensures inputs[..i + 1][k] == inputs[..i][k] {
    }
  }

  // ----- Discovery -----

  ghost predicate Sorts(sort: seq<Found> -> seq<Found>) {
    forall rows {:trigger sort(rows)} :: NotDescending(sort(rows)) && multiset(sort(rows)) == multiset(rows)
  }

  function SearchOf(world: World, options: Options, inputs: seq<Path>): Search {
    Search(world, options.recursive, InputsOf(world, inputs, Directory))
  }

  lemma StartOfTraversal(search: Search, options: Options, rows: seq<Row<nat>>, files: seq<Row<bool>>,
                         explicitFiles: set<Path>)
    requires Taken(options, rows, files, search.roots, explicitFiles)
    ensures InLoop(search, rows, 0, AsMap(files), explicitFiles) && Passed(search, options, rows, 0, files)
  {
    assert rows[..0] == [] && FilesUnder(search.world, Scanned(rows, 0)) == {};
    forall i | 0 <= i < |rows| ensures IsDepth(search, rows[i].path, rows[i].tag) {
      assert PathsOf(rows)[i] in PathSet(rows);
    }
  }

  lemma {:induction false} OrMapReadsRows(rows: seq<Found>, path: Path)
    ensures path in OrMap(rows) <==> Present(rows, path)
    ensures path in OrMap(rows) ==> OrMap(rows)[path] == Flagged(rows, path)
  {
    if rows != [] {
      var front, last := rows[..|rows| - 1], rows[|rows| - 1];
      OrMapReadsRows(front, path);
      assert rows == front + [last];
    }
  }

  lemma SortingKeepsTheMap(rows: seq<Found>, sorted: seq<Found>)
    requires multiset(sorted) == multiset(rows)
    ensures OrMap(sorted) == OrMap(rows)
  {
    assert forall r: Found {:trigger r in sorted} {:trigger r in rows} :: r in sorted <==> r in rows by {
      forall r: Found ensures r in sorted <==> r in rows {
        assert r in multiset(sorted) <==> r in multiset(rows);
      }
    }
    forall p ensures p in OrMap(sorted) <==> p in OrMap(rows) {
      OrMapReadsRows(rows, p);
      OrMapReadsRows(sorted, p);
    }
    forall p | p in OrMap(rows) ensures OrMap(sorted)[p] == OrMap(rows)[p] {
      OrMapReadsRows(rows, p);
      OrMapReadsRows(sorted, p);
    }
  }

  /** `sort_and_deduplicate` of a table without repeats. */
  method SortRows(rows: seq<Found>, sort: seq<Found> -> seq<Found>) returns (out: seq<Found>)
    requires Unique(rows) && Sorts(sort)
    ensures Strict(out) && AsMap(out) == AsMap(rows)
  {
    var sorted := sort(rows);
    var paths := new Found[|sorted|](i requires 0 <= i < |sorted| => sorted[i]);
    assert paths[..] == sorted;
    var count := Deduplicate(paths);
    out := paths[..count];
    SortingKeepsTheMap(rows, sorted);
    OrMapOfUnique(rows);
    StrictIsUnique(out);
    OrMapOfUnique(out);
  }

  lemma {:induction false} ChildrenAreNamed(directory: Path, children: seq<Child>, kind: Kind)
    requires directory != []
    ensures [] !in Children(directory, children, kind)
  {
    if children != [] {
      ChildrenAreNamed(directory, children[..|children| - 1], kind);
    }
  }

  lemma {:induction false} LevelsAreNamed(search: Search, depth: nat)
    requires [] !in search.roots
    ensures [] !in Level(search, depth)
  {
    if depth > 0 {
      LevelsAreNamed(search, depth - 1);
      forall d | d in Level(search, depth - 1) ensures [] !in SubDirectories(search, d) {
        ChildrenAreNamed(d, Listed(search.world, d), Directory);
      }
    }
  }

  /** Below named inputs everything to be found has a name. */
  lemma FoundAreNamed(search: Search, explicitFiles: set<Path>)
    requires [] !in search.roots && [] !in explicitFiles
    ensures !ToFind(search, explicitFiles, [])
  {
    forall d | ReachableDirectory(search, d) ensures [] !in RegularFiles(search.world, d) {
      var depth: nat :| d in Level(search, depth);
      LevelsAreNamed(search, depth);
      ChildrenAreNamed(d, Listed(search.world, d), Regular);
    }
  }

  /** Rows without a nameless path are a result once they are strictly sorted. */
  lemma NamedRowsAreAResult(rows: seq<Found>)
    requires Strict(rows) && [] !in AsMap(rows)
    ensures IsResult(rows)
  {
    AsMapKeys(rows, []);
    forall i | 0 <= i < |rows| ensures rows[i].path != [] {
      assert PathsOf(rows)[i] == rows[i].path;
    }
  }

  /** Exactly the files to be found, strictly sorted and named, flagged when they were given explicitly. */
  ghost predicate Discovered(world: World, options: Options, inputs: seq<Path>, rows: seq<Found>) {
    var search, explicitFiles := SearchOf(world, options, inputs), InputsOf(world, inputs, Regular);
    && IsResult(rows) && Ascending(rows)
    && (forall p {:trigger p in AsMap(rows)} :: p in AsMap(rows) <==> ToFind(search, explicitFiles, p))
    && forall p {:trigger AsMap(rows)[p]} :: p in AsMap(rows) ==> (AsMap(rows)[p] <==> p in explicitFiles)
  }

  /** Usable inputs, and nothing below them that the options forbid. */
  ghost predicate Discoverable(world: World, options: Options, inputs: seq<Path>) {
    && inputs != [] && InputsFit(world, options, inputs)
    && Permitted(SearchOf(world, options, inputs), options, InputsOf(world, inputs, Regular))
  }

  // ----- The same by chains of directory entries -----

  /** Inputs that are named, short enough, regular files or directories, and not too many of either. */
  ghost predicate InputsPass(world: World, options: Options, inputs: seq<Path>) {
    && inputs != []
    && (forall i {:trigger inputs[i]} :: 0 <= i < |inputs| ==>
          && inputs[i] != [] && (options.maxPathBytes == 0 || |inputs[i]| <= options.maxPathBytes)
          && inputs[i] in world.kinds
          && (world.kinds[inputs[i]] == Regular || world.kinds[inputs[i]] == Directory))
    && var directories := set p | p in inputs && p in world.kinds && world.kinds[p] == Directory;
       var files := set p | p in inputs && p in world.kinds && world.kinds[p] == Regular;
       && (options.maxDirectories == 0 || |directories| <= options.maxDirectories)
       && (options.maxFiles == 0 || |files| <= options.maxFiles)
  }

  lemma InputSets(world: World, inputs: seq<Path>, kind: Kind)
    ensures InputsOf(world, inputs, kind) == set p | p in inputs && p in world.kinds && world.kinds[p] == kind
  {
  }

  lemma DiscoverableExactly(world: World, options: Options, inputs: seq<Path>)
    ensures Discoverable(world, options, inputs)
            <==> InputsPass(world, options, inputs) && PathChains.Unobjectionable(world, options, inputs)
    ensures PathChains.StartsFrom(SearchOf(world, options, inputs), options, inputs)
  {
    InputSets(world, inputs, Directory);
    InputSets(world, inputs, Regular);
    PathChains.PermittedExactly(SearchOf(world, options, inputs), options, inputs, InputsOf(world, inputs, Regular));
  }

  /** The rows are those of the files that chains lead to, in the order of their bytes, with a flag on the inputs. */
  ghost predicate FoundByChains(world: World, options: Options, inputs: seq<Path>, rows: seq<Found>) {
    && Ascending(rows)
    && forall r {:trigger r in rows} :: r in rows <==>
         && PathChains.Found(world, options, inputs, r.path)
         && (r.tag <==> r.path in inputs && r.path in world.kinds && world.kinds[r.path] == Regular)
  }

  lemma DiscoveredByChains(world: World, options: Options, inputs: seq<Path>, rows: seq<Found>)
    requires Discovered(world, options, inputs, rows)
    ensures FoundByChains(world, options, inputs, rows)
  {
    DiscoverableExactly(world, options, inputs);
    InputSets(world, inputs, Regular);
    var search, explicitFiles := SearchOf(world, options, inputs), InputsOf(world, inputs, Regular);
    forall r: Found
      ensures r in rows <==>
                && PathChains.Found(world, options, inputs, r.path)
                && (r.tag <==> r.path in inputs && r.path in world.kinds && world.kinds[r.path] == Regular)
    {
      PathChains.ToFindIsFound(search, options, inputs, explicitFiles, r.path);
      RowsAreEntries(rows, r);
    }
  }

  /** `common_path_discover`: it succeeds exactly when there is nothing to object to, and then with exactly
      the right files; failure leaves the old result. */
  method Discover(world: World, options: Options, inputs: seq<Path>, hash: Path -> nat, sort: seq<Found> -> seq<Found>,
                  result: DiscoveryResult) returns (status: Status)
    requires Sorts(sort)
    modifies result
    ensures status == Ok <==> Discoverable(world, options, inputs)
    ensures status == Ok ==> Discovered(world, options, inputs, result.paths)
    ensures status != Ok ==> result.paths == old(result.paths)
    ensures status == Ok
            <==> InputsPass(world, options, inputs) && PathChains.Unobjectionable(world, options, inputs)
    ensures status == Ok ==> FoundByChains(world, options, inputs, result.paths)
  {
    DiscoverableExactly(world, options, inputs);
    if inputs == [] {
      return InvalidArgument;
    }
    var files := new PathTable<bool>(hash);
    var directories := new PathTable<nat>(hash);
    status := TakeInputs(world, options, inputs, directories, files);
    if status != Ok {
      return;
    }
    ghost var explicitFiles := InputsOf(world, inputs, Regular);
    var search := SearchOf(world, options, inputs);
    StartOfTraversal(search, options, directories.rows, files.rows, explicitFiles);
    status := Traverse(search, options, directories, files, explicitFiles);
    if status != Ok {
      return;
    }
    var rows := SortRows(files.rows, sort);
    forall p ensures p in AsMap(rows) <==> ToFind(search, explicitFiles, p) {
      FoundIsToFind(search, directories.rows, AsMap(files.rows), explicitFiles, p);
    }
    FoundAreNamed(search, explicitFiles);
    NamedRowsAreAResult(rows);
    StrictIsAscending(rows);
    DiscoveredByChains(world, options, inputs, rows);
    result.paths := rows;
  }
}
