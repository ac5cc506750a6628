/** The duplicate-free tables of src/common/path_discovery.c: found files with their explicit flag, and
    queued directories with their depth. Both are found through the same open-addressing index. */
module PathTables {
  import opened Bytes
  import opened PathIndex

  datatype Row<+T> = Row(path: Path, tag: T)

  datatype Status = Ok | InvalidArgument | NotFound | LinkRejected | UnsupportedNode | IoError
                  | FileLimitExceeded | DirectoryLimitExceeded | DepthLimitExceeded | PathLimitExceeded

  function PathsOf<T>(rows: seq<Row<T>>): (r: seq<Path>)
    ensures |r| == |rows|
  {
    seq(|rows|, i requires 0 <= i < |rows| => rows[i].path)
  }

  predicate Unique<T>(rows: seq<Row<T>>) {
    forall i, j {:trigger Differ(rows, i, j)} :: 0 <= i < j < |rows| ==> Differ(rows, i, j)
  }

  predicate Differ<T>(rows: seq<Row<T>>, i: nat, j: nat)
    requires i < |rows| && j < |rows|
  {
    rows[i].path != rows[j].path
  }

  lemma UniqueFront<T>(rows: seq<Row<T>>)
    requires Unique(rows) && rows != []
    ensures Unique(rows[..|rows| - 1])
    ensures forall i {:trigger rows[..|rows| - 1][i]} :: 0 <= i < |rows| - 1 ==> rows[i].path != rows[|rows| - 1].path
  {
    var front := rows[..|rows| - 1];
    forall i: nat, j: nat | i < j < |front| ensures Differ(front, i, j) {
      assert Differ(rows, i, j);
    }
    forall i | 0 <= i < |front| ensures rows[i].path != rows[|rows| - 1].path {
      assert Differ(rows, i, |rows| - 1);
    }
  }

  /** The rows as a map; later rows win. */
  function AsMap<T>(rows: seq<Row<T>>): map<Path, T> {
    if rows == [] then map[] else AsMap(rows[..|rows| - 1])[rows[|rows| - 1].path := rows[|rows| - 1].tag]
  }

  lemma AsMapAppends<T>(rows: seq<Row<T>>, row: Row<T>)
    ensures AsMap(rows + [row]) == AsMap(rows)[row.path := row.tag]
  {
    assert (rows + [row])[..|rows|] == rows;
  }

  lemma {:induction false} AsMapHolds<T>(rows: seq<Row<T>>, i: nat)
    requires Unique(rows) && i < |rows|
    ensures rows[i].path in AsMap(rows) && AsMap(rows)[rows[i].path] == rows[i].tag
  {
    UniqueFront(rows);
    if i < |rows| - 1 {
      assert rows[..|rows| - 1][i] == rows[i];
      AsMapHolds(rows[..|rows| - 1], i);
    }
  }

  lemma {:induction false} AsMapKeys<T>(rows: seq<Row<T>>, path: Path)
    ensures path in AsMap(rows) <==> path in PathsOf(rows)
  {
    if rows != [] {
      var front, last := rows[..|rows| - 1], rows[|rows| - 1];
      AsMapKeys(front, path);
      assert PathsOf(rows) == PathsOf(front) + [last.path];
    }
  }

  lemma {:induction false} AsMapUpdates<T>(rows: seq<Row<T>>, i: nat, tag: T)
    requires Unique(rows) && i < |rows|
    ensures AsMap(rows[i := Row(rows[i].path, tag)]) == AsMap(rows)[rows[i].path := tag]
  {
    var front, last, after := rows[..|rows| - 1], rows[|rows| - 1], rows[i := Row(rows[i].path, tag)];
    UniqueFront(rows);
    if i < |rows| - 1 {
      assert front[i] == rows[i];
      AsMapUpdates(front, i, tag);
      assert after[..|rows| - 1] == front[i := Row(front[i].path, tag)];
    } else {
      assert after[..|rows| - 1] == front;
    }
  }

  lemma RowsAppend<T>(rows: seq<Row<T>>, row: Row<T>)
    requires Unique(rows) && row.path !in PathsOf(rows)
    ensures Unique(rows + [row]) && PathsOf(rows + [row]) == PathsOf(rows) + [row.path]
  {
    var more := rows + [row];
    forall i: nat, j: nat | i < j < |more| ensures Differ(more, i, j) {
      if j < |rows| {
        assert Differ(rows, i, j);
      } else {
        assert PathsOf(rows)[i] == rows[i].path;
      }
    }
  }

  lemma RowsRetag<T>(rows: seq<Row<T>>, i: nat, tag: T)
    requires Unique(rows) && i < |rows|
    ensures Unique(rows[i := Row(rows[i].path, tag)]) && PathsOf(rows[i := Row(rows[i].path, tag)]) == PathsOf(rows)
  {
    var after := rows[i := Row(rows[i].path, tag)];
    forall k: nat, l: nat | k < l < |after| ensures Differ(after, k, l) {
      assert Differ(rows, k, l);
    }
  }

  class PathTable<T> {
    const hash: Path -> nat
    var slots: array<nat>
    var rows: seq<Row<T>>

    ghost predicate Valid()
      reads this, slots
    {
      Unique(rows) && Indexes(slots[..], hash, PathsOf(rows), |rows|)
    }

    constructor (hash: Path -> nat)
      ensures Valid() && fresh(slots) && rows == []
    {
      this.hash := hash;
      slots := new nat[0];
      rows := [];
    }

    method Lookup(path: Path) returns (found: Option<nat>)
      requires Valid()
      ensures found.None? <==> path !in PathsOf(rows)
      ensures found.Some? ==> found.value < |rows| && rows[found.value].path == path
    {
      found := Find(slots, hash, PathsOf(rows), path);
    }

    /** Replace the tag of a row. */
    method Retag(i: nat, tag: T)
      requires Valid() && i < |rows|
      modifies this`rows
      ensures Valid() && rows == old(rows)[i := Row(old(rows)[i].path, tag)]
      ensures PathsOf(rows) == old(PathsOf(rows)) && AsMap(rows) == old(AsMap(rows))[old(rows)[i].path := tag]
    {
      AsMapUpdates(rows, i, tag);
      RowsRetag(rows, i, tag);
      rows := rows[i := Row(rows[i].path, tag)];
    }

    /** Append a row for a new path, growing the index first. */
    method Append(path: Path, tag: T)
      requires Valid() && path !in PathsOf(rows)
      modifies this, slots
      ensures Valid() && (slots == old(slots) || fresh(slots))
      ensures rows == old(rows) + [Row(path, tag)] && PathsOf(rows) == old(PathsOf(rows)) + [path]
      ensures AsMap(rows) == old(AsMap(rows))[path := tag]
    {
      ghost var paths := PathsOf(rows);
      slots := Reserve(slots, hash, |rows| + 1, PathsOf(rows));
      IndexesMorePaths(slots[..], hash, paths, path);
      var ok := PathIndex.Insert(slots, hash, paths + [path], path, |rows|);
      AsMapAppends(rows, Row(path, tag));
      RowsAppend(rows, Row(path, tag));
      rows := rows + [Row(path, tag)];
    }
  }

  /** Two tables that share no index. */
  ghost predicate Apart<S, T>(queue: PathTable<S>, files: PathTable<T>)
    reads queue, files, queue.slots, files.slots
  {
    queue.Valid() && files.Valid() && queue.slots != files.slots
  }

  /** The index is still the same array, or a newly allocated one. */
  twostate predicate Rehashed<T>(table: PathTable<T>)
    reads table
  {
    table.slots == old(table.slots) || fresh(table.slots)
  }

  /** The flags of a file map once a path has been added. */
  function WithFile(files: map<Path, bool>, path: Path, explicitFile: bool): map<Path, bool> {
    files[path := explicitFile || (path in files && files[path])]
  }

  /** `add_file`: a map whose flags are joined by or, bounded by the file limit. */
  method AddFile(files: PathTable<bool>, path: Path, explicitFile: bool, maxFiles: nat) returns (status: Status)
    requires files.Valid()
    modifies files, files.slots
    ensures files.Valid() && Rehashed(files)
    ensures status == if path !in old(AsMap(files.rows)) && maxFiles != 0 && |old(files.rows)| >= maxFiles
                      then FileLimitExceeded else Ok
    ensures status == Ok ==> AsMap(files.rows) == WithFile(old(AsMap(files.rows)), path, explicitFile)
    ensures status != Ok ==> files.rows == old(files.rows)
    ensures |files.rows| == if status == Ok && path !in old(AsMap(files.rows)) then |old(files.rows)| + 1
      else |old(files.rows)|
  {
    AsMapKeys(files.rows, path);
    var existing := files.Lookup(path);
    if existing.Some? {
      AsMapHolds(files.rows, existing.value);
      files.Retag(existing.value, files.rows[existing.value].tag || explicitFile);
      return Ok;
    }
    if maxFiles != 0 && |files.rows| >= maxFiles {
      return FileLimitExceeded;
    }
    files.Append(path, explicitFile);
    status := Ok;
  }

  /** `queue_directory`: a known directory may only get nearer, a new one goes to the end. */
  method QueueDirectory(queue: PathTable<nat>, path: Path, depth: nat, maxDirectories: nat, maxDepth: nat)
    returns (status: Status)
    requires queue.Valid()
    modifies queue, queue.slots
    ensures queue.Valid() && Rehashed(queue)
    ensures path !in old(PathsOf(queue.rows)) ==>
              status == if maxDepth != 0 && depth > maxDepth then DepthLimitExceeded
                        else if maxDirectories != 0 && |old(queue.rows)| >= maxDirectories then DirectoryLimitExceeded
                        else Ok
    ensures path !in old(PathsOf(queue.rows)) && status == Ok ==> queue.rows == old(queue.rows) + [Row(path, depth)]
    ensures path in old(PathsOf(queue.rows)) ==> status == Ok && |queue.rows| == |old(queue.rows)|
    ensures path in old(PathsOf(queue.rows)) ==> forall i {:trigger queue.rows[i]} :: 0 <= i < |queue.rows| ==>
              queue.rows[i] ==
              if old(queue.rows)[i].path == path && depth < old(queue.rows)[i].tag then Row(path, depth)
              else old(queue.rows)[i]
    ensures status != Ok ==> queue.rows == old(queue.rows)
  {
    var existing := queue.Lookup(path);
    if existing.Some? {
      forall i | 0 <= i < |queue.rows| && i != existing.value ensures queue.rows[i].path != path {
        assert if i < existing.value then Differ(queue.rows, i, existing.value)
          else Differ(queue.rows, existing.value, i);
      }
      if depth < queue.rows[existing.value].tag {
        queue.Retag(existing.value, depth);
      }
      return Ok;
    }
    if maxDepth != 0 && depth > maxDepth {
      return DepthLimitExceeded;
    }
    if maxDirectories != 0 && |queue.rows| >= maxDirectories {
      return DirectoryLimitExceeded;
    }
    queue.Append(path, depth);
    status := Ok;
  }
}
