/** Sorted discovery results: deduplication and the linear merge (src/common/path_discovery.c). */
module PathResults {
  import opened ByteOrder
  import opened PathIndex
  import opened PathTables

  type Found = Row<bool>

  predicate Less(a: Found, b: Found) {
    CompareBytes(a.path, b.path) < 0
  }

  predicate Strict(rows: seq<Found>) {
    forall i, j :: 0 <= i < j < |rows| ==> Less(rows[i], rows[j])
  }

  predicate NotDescending(rows: seq<Found>) {
    forall i, j :: 0 <= i < j < |rows| ==> CompareBytes(rows[i].path, rows[j].path) <= 0
  }

  /** The order of the rows in terms of their bytes. */
  ghost predicate Ascending(rows: seq<Found>) {
    forall i, j :: 0 <= i < j < |rows| ==> Precedes(rows[i].path, rows[j].path)
  }

  lemma StrictIsAscending(rows: seq<Found>)
    ensures Strict(rows) <==> Ascending(rows)
  {
    forall i, j | 0 <= i < j < |rows| ensures Less(rows[i], rows[j]) <==> Precedes(rows[i].path, rows[j].path) {
      ComparesAsPrecedes(rows[i].path, rows[j].path);
    }
  }

  lemma StrictIsUnique(rows: seq<Found>)
    requires Strict(rows)
    ensures Unique(rows)
  {
    forall i: nat, j: nat | i < j < |rows| ensures Differ(rows, i, j) {
      assert Less(rows[i], rows[j]);
      BytesTotal(rows[i].path, rows[j].path);
    }
  }

  /** The rows as a map with the flags of equal paths joined by or. */
  function OrMap(rows: seq<Found>): map<Path, bool> {
    if rows == [] then map[]
    else WithFile(OrMap(rows[..|rows| - 1]), rows[|rows| - 1].path, rows[|rows| - 1].tag)
  }

  lemma OrMapAppends(rows: seq<Found>, row: Found)
    ensures OrMap(rows + [row]) == WithFile(OrMap(rows), row.path, row.tag)
  {
    assert (rows + [row])[..|rows|] == rows;
  }

  lemma {:induction false} OrMapKeys(rows: seq<Found>, path: Path)
    ensures path in OrMap(rows) <==> exists i {:trigger rows[i]} :: 0 <= i < |rows| && rows[i].path == path
  {
    if rows != [] {
      OrMapKeys(rows[..|rows| - 1], path);
    }
  }

  /** Without repeated paths there is nothing to join. */
  lemma {:induction false} OrMapOfUnique(rows: seq<Found>)
    requires Unique(rows)
    ensures OrMap(rows) == AsMap(rows)
  {
    if rows != [] {
      var front := rows[..|rows| - 1];
      UniqueFront(rows);
      OrMapOfUnique(front);
      OrMapKeys(front, rows[|rows| - 1].path);
    }
  }

  // ----- Sorting and deduplication -----

  lemma StrictAppends(rows: seq<Found>, row: Found)
    requires Strict(rows) && (rows != [] ==> Less(rows[|rows| - 1], row))
    ensures Strict(rows + [row])
  {
    forall i | 0 <= i < |rows| ensures Less(rows[i], row) {
      if i < |rows| - 1 {
        assert Less(rows[i], rows[|rows| - 1]);
        BytesTransitive(rows[i].path, rows[|rows| - 1].path, row.path);
      }
    }
  }

  lemma StrictRetags(rows: seq<Found>, tag: bool)
    requires Strict(rows) && rows != []
    ensures Strict(rows[|rows| - 1 := Row(rows[|rows| - 1].path, tag)])
  {
    var after := rows[|rows| - 1 := Row(rows[|rows| - 1].path, tag)];
    forall i, j | 0 <= i < j < |rows| ensures Less(after[i], after[j]) {
      assert Less(rows[i], rows[j]);
    }
  }

  /** Joining a repeated last path into the last row kept. */
  lemma OrMapJoins(rows: seq<Found>, row: Found)
    requires rows != [] && row.path == rows[|rows| - 1].path
    ensures OrMap(rows[|rows| - 1 := Row(row.path, rows[|rows| - 1].tag || row.tag)]) ==
      WithFile(OrMap(rows), row.path, row.tag)
  {
    var after := rows[|rows| - 1 := Row(row.path, rows[|rows| - 1].tag || row.tag)];
    assert after[..|rows| - 1] == rows[..|rows| - 1];
  }

  /** The rows kept for the first `input` rows of a sorted list. */
  ghost predicate Kept(kept: seq<Found>, before: seq<Found>, input: nat) {
    && 0 < input <= |before| && kept != [] && Strict(kept) && kept[|kept| - 1].path == before[input - 1].path
    && OrMap(kept) == OrMap(before[..input])
  }

  lemma KeepStep(kept: seq<Found>, before: seq<Found>, input: nat)
    requires Kept(kept, before, input) && NotDescending(before) && input < |before|
    ensures var last, current := kept[|kept| - 1], before[input];
            if last.path == current.path
            then Kept(kept[|kept| - 1 := Row(last.path, last.tag || current.tag)], before, input + 1)
            else Kept(kept + [current], before, input + 1)
  {
    var last, current := kept[|kept| - 1], before[input];
    assert before[..input + 1] == before[..input] + [current];
    OrMapAppends(before[..input], current);
    BytesTotal(last.path, current.path);
    if last.path == current.path {
      OrMapJoins(kept, current);
      StrictRetags(kept, last.tag || current.tag);
    } else {
      StrictAppends(kept, current);
      OrMapAppends(kept, current);
    }
  }

  /** The pass after qsort: compact in place, keeping one row per path with the flags joined. */
  method Deduplicate(paths: array<Found>) returns (output: nat)
    requires NotDescending(paths[..])
    modifies paths
    ensures output <= paths.Length && Strict(paths[..output])
    ensures OrMap(paths[..output]) == OrMap(old(paths[..]))
  {
    ghost var before := paths[..];
    if paths.Length < 2 {
      assert paths[..paths.Length] == before;
      return paths.Length;
    }
    output := 1;
    var input := 1;
    assert paths[..1] == before[..1];
    while input < paths.Length
      invariant 1 <= output <= input <= paths.Length
      invariant paths[input..] == before[input..] && Kept(paths[..output], before, input)
    {
      output := KeepNext(paths, output, input, before);
      input := input + 1;
    }
    assert before[..input] == before;
  }

  /** One turn: join the row at `input` into the last row kept, or keep it behind that one. */
  method KeepNext(paths: array<Found>, count: nat, input: nat, ghost before: seq<Found>) returns (output: nat)
    requires 1 <= count <= input < paths.Length == |before| && NotDescending(before)
    requires paths[input..] == before[input..] && Kept(paths[..count], before, input)
    modifies paths
    ensures count <= output <= input + 1 && paths[input + 1..] == before[input + 1..]
    ensures Kept(paths[..output], before, input + 1)
  {
    ghost var kept := paths[..count];
    var previous, current := paths[count - 1], paths[input];
    assert current == paths[input..][0] == before[input];
    assert paths[input + 1..] == before[input..][1..];
    KeepStep(kept, before, input);
    if previous.path == current.path {
      paths[count - 1] := Row(previous.path, previous.tag || current.tag);
      assert paths[..count] == kept[count - 1 := Row(previous.path, previous.tag || current.tag)];
      output := count;
    } else {
      if count != input {
        paths[count] := current;
      }
      assert paths[..count + 1] == kept + [current];
      output := count + 1;
    }
  }

  // ----- Merging -----

  /** The union of two results, flags joined. */
  predicate IsUnion(m: map<Path, bool>, a: map<Path, bool>, b: map<Path, bool>) {
    m.Keys == a.Keys + b.Keys && forall p {:trigger m[p]} :: p in m ==> m[p] == ((p in a && a[p]) || (p in b && b[p]))
  }

  /** The rows still to come of two results, from positions `i` and `j`. */
  function MergedCount(a: seq<Found>, b: seq<Found>): nat {
    if a == [] || b == [] then |a| + |b|
    else
      var order := CompareBytes(a[0].path, b[0].path);
      1 + MergedCount(if order <= 0 then a[1..] else a, if order >= 0 then b[1..] else b)
  }

  /** What the merge loop puts out. */
  function Merged(a: seq<Found>, b: seq<Found>): seq<Found> {
    if a == [] then b
    else if b == [] then a
    else
      var order := CompareBytes(a[0].path, b[0].path);
      if order < 0 then [a[0]] + Merged(a[1..], b)
      else if order > 0 then [b[0]] + Merged(a, b[1..])
      else [Row(a[0].path, a[0].tag || b[0].tag)] + Merged(a[1..], b[1..])
  }

  lemma {:induction false} CountIsExact(a: seq<Found>, b: seq<Found>)
    ensures |Merged(a, b)| == MergedCount(a, b)
  {
    if a != [] && b != [] {
      var order := CompareBytes(a[0].path, b[0].path);
      CountIsExact(if order <= 0 then a[1..] else a, if order >= 0 then b[1..] else b);
    }
  }

  predicate Above(rows: seq<Found>, path: Path) {
    forall i {:trigger rows[i]} :: 0 <= i < |rows| ==> CompareBytes(path, rows[i].path) < 0
  }

  lemma {:induction false} MergedAbove(a: seq<Found>, b: seq<Found>, path: Path)
    requires Above(a, path) && Above(b, path)
    ensures Above(Merged(a, b), path)
  {
    if a != [] && b != [] {
      var order := CompareBytes(a[0].path, b[0].path);
      MergedAbove(if order <= 0 then a[1..] else a, if order >= 0 then b[1..] else b, path);
    }
  }

  lemma StrictCons(row: Found, rows: seq<Found>)
    requires Strict(rows) && Above(rows, row.path)
    ensures Strict([row] + rows)
  {
    var all := [row] + rows;
    forall i, j | 0 <= i < j < |all| ensures Less(all[i], all[j]) {
      assert all[j] == rows[j - 1];
      assert i > 0 ==> all[i] == rows[i - 1];
    }
  }

  /** The tail of a strict list, and anything whose head is larger, lies above its head. */
  lemma TailIsAbove(rows: seq<Found>, path: Path)
    requires Strict(rows) && rows != [] && CompareBytes(path, rows[0].path) <= 0
    ensures Above(rows[1..], path) && Strict(rows[1..]) && (CompareBytes(path, rows[0].path) < 0 ==> Above(rows, path))
  {
    forall i | 0 < i < |rows| ensures CompareBytes(path, rows[i].path) < 0 {
      assert Less(rows[0], rows[i]);
      BytesTransitive(path, rows[0].path, rows[i].path);
    }
  }

  /** Merging two strict results gives a strict result. */
  lemma {:induction false} MergedIsStrict(a: seq<Found>, b: seq<Found>)
    requires Strict(a) && Strict(b)
    ensures Strict(Merged(a, b))
  {
    if a != [] && b != [] {
      var order := CompareBytes(a[0].path, b[0].path);
      BytesTotal(a[0].path, b[0].path);
      BytesTotal(a[0].path, a[0].path);
      BytesTotal(b[0].path, b[0].path);
      var least := if order <= 0 then a[0] else b[0];
      var restA, restB := if order <= 0 then a[1..] else a, if order >= 0 then b[1..] else b;
      TailIsAbove(a, least.path);
      TailIsAbove(b, least.path);
      MergedIsStrict(restA, restB);
      MergedAbove(restA, restB, least.path);
      StrictCons(Row(least.path, if order == 0 then a[0].tag || b[0].tag else least.tag), Merged(restA, restB));
    }
  }

  // ----- A merge is a union -----

  predicate Present(rows: seq<Found>, path: Path) {
    Row(path, true) in rows || Row(path, false) in rows
  }

  predicate Flagged(rows: seq<Found>, path: Path) {
    Row(path, true) in rows
  }

  lemma {:induction false} MapReadsRows(rows: seq<Found>, path: Path)
    requires Unique(rows)
    ensures path in AsMap(rows) <==> Present(rows, path)
    ensures path in AsMap(rows) ==> AsMap(rows)[path] == Flagged(rows, path)
  {
    if rows != [] {
      var front, last := rows[..|rows| - 1], rows[|rows| - 1];
      UniqueFront(rows);
      MapReadsRows(front, path);
      assert rows == front + [last];
      if last.path == path {
        assert Row(path, !last.tag) !in front && last !in front;
      }
    }
  }

  lemma RowsCons(row: Found, rows: seq<Found>, path: Path)
    ensures Present([row] + rows, path) <==> (row.path == path || Present(rows, path))
    ensures Flagged([row] + rows, path) <==> ((row.path == path && row.tag) || Flagged(rows, path))
  {
    var all := [row] + rows;
    assert row in all && if row.tag then row == Row(row.path, true) else row == Row(row.path, false);
    forall f: Found | f in all ensures f == row || f in rows {
    }
    forall f: Found | f in rows ensures f in all {
    }
  }

  lemma {:induction false} MergedRows(a: seq<Found>, b: seq<Found>, path: Path)
    ensures Present(Merged(a, b), path) <==> Present(a, path) || Present(b, path)
    ensures Flagged(Merged(a, b), path) <==> Flagged(a, path) || Flagged(b, path)
  {
    if a != [] && b != [] {
      var order := CompareBytes(a[0].path, b[0].path);
      BytesTotal(a[0].path, b[0].path);
      var restA, restB := if order <= 0 then a[1..] else a, if order >= 0 then b[1..] else b;
      MergedRows(restA, restB, path);
      assert a == [a[0]] + a[1..] && b == [b[0]] + b[1..];
      RowsCons(a[0], a[1..], path);
      RowsCons(b[0], b[1..], path);
      var row := if order < 0 then a[0] else if order > 0 then b[0] else Row(a[0].path, a[0].tag || b[0].tag);
      RowsCons(row, Merged(restA, restB), path);
    }
  }

  lemma MergedIsUnion(a: seq<Found>, b: seq<Found>)
    requires Strict(a) && Strict(b)
    ensures Strict(Merged(a, b)) && IsUnion(AsMap(Merged(a, b)), AsMap(a), AsMap(b))
  {
    MergedIsStrict(a, b);
    StrictIsUnique(a);
    StrictIsUnique(b);
    StrictIsUnique(Merged(a, b));
    forall p ensures p in AsMap(Merged(a, b)) <==> p in AsMap(a) || p in AsMap(b) {
      MapsAgree(a, b, p);
    }
    forall p | p in AsMap(Merged(a, b))
      ensures AsMap(Merged(a, b))[p] == ((p in AsMap(a) && AsMap(a)[p]) || (p in AsMap(b) && AsMap(b)[p]))
    {
      MapsAgree(a, b, p);
    }
  }

  lemma MapsAgree(a: seq<Found>, b: seq<Found>, p: Path)
    requires Unique(a) && Unique(b) && Unique(Merged(a, b))
    ensures var m, ma, mb := AsMap(Merged(a, b)), AsMap(a), AsMap(b);
            && (p in m <==> p in ma || p in mb)
            && (p in m ==> m[p] == ((p in ma && ma[p]) || (p in mb && mb[p])))
  {
    MapReadsRows(a, p);
    MapReadsRows(b, p);
    MapReadsRows(Merged(a, b), p);
    MergedRows(a, b, p);
  }

  // ----- The result object -----

  class DiscoveryResult {
    var paths: seq<Found>

    constructor ()
      ensures paths == []
    {
      paths := [];
    }
  }

  predicate IsResult(rows: seq<Found>) {
    Strict(rows) && forall i {:trigger rows[i]} :: 0 <= i < |rows| ==> rows[i].path != []
  }

  /** A result in terms of the bytes of its paths. */
  ghost predicate IsAscendingResult(rows: seq<Found>) {
    Ascending(rows) && forall i {:trigger rows[i]} :: 0 <= i < |rows| ==> rows[i].path != []
  }

  /** `discovery_result_is_sorted_unique`, from neighbours alone. */
  method IsSortedUnique(rows: seq<Found>) returns (ok: bool)
    ensures ok <==> IsResult(rows)
  {
    for i := 0 to |rows|
      invariant IsResult(rows[..i])
    {
      if rows[i].path == [] || (i != 0 && CompareBytes(rows[i - 1].path, rows[i].path) >= 0) {
        assert i != 0 && Strict(rows) ==> Less(rows[i - 1], rows[i]);
        return false;
      }
      StrictAppends(rows[..i], rows[i]);
      assert rows[..i + 1] == rows[..i] + [rows[i]];
    }
    assert rows[..|rows|] == rows;
    ok := true;
  }

  method CountMerged(a: seq<Found>, b: seq<Found>) returns (count: nat)
    ensures count == |Merged(a, b)|
  {
    CountIsExact(a, b);
    var i, j := 0, 0;
    count := 0;
    assert a[0..] == a && b[0..] == b;
    while i < |a| && j < |b|
      invariant i <= |a| && j <= |b| && count + MergedCount(a[i..], b[j..]) == MergedCount(a, b)
      decreases |a| + |b| - i - j
    {
      assert a[i..][1..] == a[i + 1..] && b[j..][1..] == b[j + 1..];
      var order := CompareBytes(a[i].path, b[j].path);
      i := if order <= 0 then i + 1 else i;
      j := if order >= 0 then j + 1 else j;
      count := count + 1;
    }
    count := count + (|a| - i) + (|b| - j);
  }

  lemma MergeStep(out: seq<Found>, a: seq<Found>, b: seq<Found>, i: nat, j: nat)
    requires i <= |a| && j <= |b| && (i < |a| || j < |b|)
    ensures var order := if j == |b| then -1 else if i == |a| then 1 else CompareBytes(a[i].path, b[j].path);
            out + Merged(a[i..], b[j..])
            == if order < 0 then out + [a[i]] + Merged(a[i + 1..], b[j..])
               else if order > 0 then out + [b[j]] + Merged(a[i..], b[j + 1..])
               else out + [Row(a[i].path, a[i].tag || b[j].tag)] + Merged(a[i + 1..], b[j + 1..])
  {
    if i < |a| {
      assert a[i..] == [a[i]] + a[i + 1..];
    }
    if j < |b| {
      assert b[j..] == [b[j]] + b[j + 1..];
    }
  }

  method MergeRows(a: seq<Found>, b: seq<Found>) returns (out: seq<Found>)
    ensures out == Merged(a, b)
  {
    var i, j := 0, 0;
    out := [];
    assert a[0..] == a && b[0..] == b && [] + Merged(a, b) == Merged(a, b);
    while i < |a| || j < |b|
      invariant i <= |a| && j <= |b| && out + Merged(a[i..], b[j..]) == Merged(a, b)
      decreases |a| + |b| - i - j
    {
      MergeStep(out, a, b, i, j);
      var takeA, takeB, order := j == |b|, i == |a|, 0;
      if !takeA && !takeB {
        order := CompareBytes(a[i].path, b[j].path);
        takeA, takeB := order <= 0, order >= 0;
      }
      if takeA {
        out := out + [Row(a[i].path, if takeB then a[i].tag || b[j].tag else a[i].tag)];
      } else {
        out := out + [b[j]];
      }
      i := if takeA then i + 1 else i;
      j := if takeB then j + 1 else j;
    }
    assert out + [] == out;
  }

  /** The rows of a strictly sorted result are the entries of its map. */
  lemma RowsAreEntries(rows: seq<Found>, r: Found)
    requires Strict(rows)
    ensures r in rows <==> r.path in AsMap(rows) && AsMap(rows)[r.path] == r.tag
  {
    StrictIsUnique(rows);
    AsMapKeys(rows, r.path);
    if r in rows {
      var i :| 0 <= i < |rows| && rows[i] == r;
      AsMapHolds(rows, i);
    }
    if r.path in AsMap(rows) && AsMap(rows)[r.path] == r.tag {
      var i :| 0 <= i < |rows| && PathsOf(rows)[i] == r.path;
      AsMapHolds(rows, i);
      assert rows[i] == r;
    }
  }

  /** A row is in the union when its path is in either list, with the flag if either has it. */
  ghost predicate UnionOfRows(rows: seq<Found>, a: seq<Found>, b: seq<Found>) {
    forall r {:trigger r in rows} :: r in rows <==>
      && (exists flag {:trigger Row(r.path, flag)} :: Row(r.path, flag) in a || Row(r.path, flag) in b)
      && (r.tag <==> Row(r.path, true) in a || Row(r.path, true) in b)
  }

  lemma UnionByRows(rows: seq<Found>, a: seq<Found>, b: seq<Found>)
    requires Strict(rows) && Strict(a) && Strict(b) && IsUnion(AsMap(rows), AsMap(a), AsMap(b))
    ensures UnionOfRows(rows, a, b)
  {
    forall r ensures r in rows <==>
      && (exists flag {:trigger Row(r.path, flag)} :: Row(r.path, flag) in a || Row(r.path, flag) in b)
      && (r.tag <==> Row(r.path, true) in a || Row(r.path, true) in b)
    {
      RowsAreEntries(rows, r);
      forall flag: bool
        ensures Row(r.path, flag) in a <==> r.path in AsMap(a) && AsMap(a)[r.path] == flag
        ensures Row(r.path, flag) in b <==> r.path in AsMap(b) && AsMap(b)[r.path] == flag
      {
        RowsAreEntries(a, Row(r.path, flag));
        RowsAreEntries(b, Row(r.path, flag));
      }
      var yes, no := Row(r.path, true), Row(r.path, false);
      assert r.path in AsMap(a) ==> yes in a || no in a;
      assert r.path in AsMap(b) ==> yes in b || no in b;
    }
  }

  /** `common_path_discovery_result_merge`: the strictly sorted union, in exactly the counted number of rows. */
  method MergeResults(destination: DiscoveryResult, addition: DiscoveryResult) returns (status: Status)
    modifies destination
    ensures status == if IsResult(old(destination.paths)) && IsResult(old(addition.paths)) then Ok else InvalidArgument
    ensures IsResult(old(destination.paths)) <==> IsAscendingResult(old(destination.paths))
    ensures IsResult(old(addition.paths)) <==> IsAscendingResult(old(addition.paths))
    ensures status != Ok ==> destination.paths == old(destination.paths)
    ensures status == Ok ==> IsResult(destination.paths) && Ascending(destination.paths)
    ensures status == Ok ==>
      IsUnion(AsMap(destination.paths), AsMap(old(destination.paths)), AsMap(old(addition.paths)))
    ensures status == Ok ==> UnionOfRows(destination.paths, old(destination.paths), old(addition.paths))
  {
    var a, b := destination.paths, addition.paths;
    StrictIsAscending(a);
    StrictIsAscending(b);
    var ok := IsSortedUnique(a);
    if !ok {
      return InvalidArgument;
    }
    ok := IsSortedUnique(b);
    if !ok {
      return InvalidArgument;
    }
    if destination == addition || b == [] {
      UnionByRows(a, a, b);
      return Ok;
    }
    var count := CountMerged(a, b);
    var out := MergeRows(a, b);
    assert |out| == count;
    MergedIsUnion(a, b);
    UnionByRows(out, a, b);
    MergedNamesAreNames(a, b);
    StrictIsAscending(out);
    destination.paths := out;
    status := Ok;
  }

  lemma {:induction false} MergedNamesAreNames(a: seq<Found>, b: seq<Found>)
    requires forall i {:trigger a[i]} :: 0 <= i < |a| ==> a[i].path != []
    requires forall i {:trigger b[i]} :: 0 <= i < |b| ==> b[i].path != []
    ensures forall i {:trigger Merged(a, b)[i]} :: 0 <= i < |Merged(a, b)| ==> Merged(a, b)[i].path != []
  {
    if a != [] && b != [] {
      var order := CompareBytes(a[0].path, b[0].path);
      MergedNamesAreNames(if order <= 0 then a[1..] else a, if order >= 0 then b[1..] else b);
    }
  }
}
