/** The directory scanner at work, and its two passes (src/io/serialized_file_directory.c). */
module DirectoryScan {
  import opened Bytes
  import opened MetadataReader
  import opened Directory
  import opened DirectoryWire
  import opened RetainedStorage

  /** The tables a pass fills; a measuring pass retains nothing. */
  class Tables {
    const retain: bool
    const types: array<Row<TypeRow>>
    const objects: array<Row<ObjectRow>>

    constructor (retain: bool, typeCount: nat, objectCount: nat)
      ensures this.retain == retain && fresh(types) && fresh(objects) && types.Length == typeCount
        && objects.Length == objectCount
    {
      this.retain := retain;
      var noWord := Word(Span(0, 0), 0);
      var noPrefix := TypePrefix(noWord, Span(0, 0), 0, Span(0, 0), 0, None, Span(0, 0));
      types := new Row<TypeRow>[typeCount](_ => Row(TypeRow(noPrefix, None), Span(0, 0)));
      objects := new Row<ObjectRow>[objectCount](_ => Row(ObjectRow(0, 0, 0, 0, Span(0, 0)), Span(0, 0)));
    }

    /** There is room for the rows of this view. */
    ghost predicate Fits(reply: Reply<View>) {
      retain ==> reply.Got? && types.Length == |reply.value.types.rows| && objects.Length == |reply.value.objects.rows|
    }
  }

  method ReadTrailer(reader: Reader, limits: Limits) returns (out: Option<Trailer>)
    requires reader.Valid()
    modifies reader
    ensures reader.Valid() && reader.Ran(out, TakeTrailer(reader.input, limits, old(reader.at)))
  {
    var tree := reader.ReadTree(limits.tree);
    if tree.None? {
      return None;
    }
    var count := reader.ReadCount();
    if count.None? {
      return None;
    }
    if reader.at.extra + count.value.bits > limits.maxDependencies {
      reader.reason := DependencyLimit;
      return None;
    }
    reader.at := reader.at.(extra := reader.at.extra + count.value.bits);
    var words := reader.TakeSpan(DEPENDENCY_SIZE * count.value.bits);
    if words.None? {
      return None;
    }
    out := Some(Trailer(tree.value, count.value, words.value));
  }

  method ReadTypeRow(reader: Reader, header: Header, limits: Limits) returns (out: Option<TypeRow>)
    requires reader.Valid()
    modifies reader
    ensures reader.Valid() && reader.Ran(out, TakeTypeRow(reader.input, header, limits, old(reader.at)))
  {
    var prefix := reader.ReadTypePrefix();
    if prefix.None? {
      return None;
    }
    if !header.treeEnabled {
      return Some(TypeRow(prefix.value, None));
    }
    var trailer := ReadTrailer(reader, limits);
    out := if trailer.None? then None else Some(TypeRow(prefix.value, trailer));
  }

  method ReadObjectRow(reader: Reader, header: Header, typeCount: nat) returns (out: Option<ObjectRow>)
    requires reader.Valid()
    modifies reader
    ensures reader.Valid() && reader.Ran(out, TakeObjectRow(reader.input, header, typeCount, old(reader.at)))
  {
    var source := reader.TakeSpan(OBJECT_SIZE);
    if source.None? {
      return None;
    }
    out := DecodeObject(reader.input, header, typeCount, source.value);
    if out.None? {
      reader.reason := ObjectRefusal(reader.input, header, source.value);
    }
  }

  /** One type row with the unit charged for completing it. */
  method ScanType(reader: Reader, header: Header, limits: Limits) returns (out: Option<Row<TypeRow>>)
    requires reader.Valid()
    modifies reader
    ensures reader.Valid()
    ensures reader.Ran(out,
                       Completed(old(reader.at).position, TakeTypeRow(reader.input, header, limits, old(reader.at))))
  {
    var start := reader.at.position;
    ghost var reply, before, charged := TakeTypeRow(reader.input, header, limits, reader.at), reader.at, reader.work;
    var row := ReadTypeRow(reader, header, limits);
    out := reader.CompleteRow(row, reply, start, before, charged);
  }

  method ScanObject(reader: Reader, header: Header, typeCount: nat) returns (out: Option<Row<ObjectRow>>)
    requires reader.Valid()
    modifies reader
    ensures reader.Valid()
    ensures reader.Ran(out,
                       Completed(old(reader.at).position,
                                 TakeObjectRow(reader.input, header, typeCount, old(reader.at))))
  {
    var start := reader.at.position;
    ghost var reply, before, charged :=
      TakeObjectRow(reader.input, header, typeCount, reader.at), reader.at, reader.work;
    var row := ReadObjectRow(reader, header, typeCount);
    out := reader.CompleteRow(row, reply, start, before, charged);
  }

  /** `step` reads type rows. */
  ghost predicate ReadsType(step: Step<TypeRow>, input: Input, header: Header, limits: Limits) {
    forall at {:trigger IsType(step, input, header, limits, at)} :: IsType(step, input, header, limits, at)
  }

  ghost predicate IsType(step: Step<TypeRow>, input: Input, header: Header, limits: Limits, at: At) {
    step(at) == TakeTypeRow(input, header, limits, at)
  }

  /** One turn of the table loop. */
  method NextType(reader: Reader, header: Header, limits: Limits, ghost step: Step<TypeRow>,
                  ghost whole: Reply<seq<Row<TypeRow>>>, ghost rows: seq<Row<TypeRow>>,
                  ghost count: nat, ghost room: int, i: nat, table: array<Row<TypeRow>>, retain: bool)
    returns (row: Option<Row<TypeRow>>)
    requires count > 0 && reader.Valid() && |rows| == i && (retain ==> i < table.Length && Stored(table, rows))
    requires ReadsType(step, reader.input, header, limits) && Advances(step)
    requires Going(step, whole, rows, count, reader.at, reader.maxWork - reader.work, room)
    modifies reader, table
    ensures old(reader.work) <= reader.work <= reader.maxWork
    ensures row.None? ==> Stops(whole, reader.reason, room)
    ensures row.Some? ==>
      Going(step, whole, rows + [row.value], count - 1, reader.at, reader.maxWork - reader.work, room)
    ensures row.Some? && retain ==> Stored(table, rows + [row.value])
  {
    ghost var here, left := reader.at, reader.maxWork - reader.work;
    assert IsType(step, reader.input, header, limits, here);
    row := ScanType(reader, header, limits);
    if row.None? {
      GoStop(step, whole, rows, count, here, left, room, reader.reason);
    } else {
      GoOn(step, whole, rows, count, here, left, room, row.value, reader.at, reader.maxWork - reader.work);
      Store(table, i, row.value, rows, retain);
    }
  }

  method ScanTypeRows(reader: Reader, ghost step: Step<TypeRow>, header: Header, limits: Limits, count: nat,
                      tables: Tables)
    returns (ghost out: Option<seq<Row<TypeRow>>>, ok: bool)
    requires ReadsType(step, reader.input, header, limits) && Advances(step)
    requires reader.Valid() && (tables.retain ==> tables.types.Length == count)
    modifies reader, tables.types
    ensures reader.Valid() && ok == out.Some?
    ensures reader.Ran(out, TakeRows(step, count, old(reader.at)))
    ensures ok && tables.retain ==> tables.types[..] == out.value
  {
    ghost var whole, room := TakeRows(step, count, reader.at), reader.maxWork - reader.work + Weight(reader.at);
    ghost var rows: seq<Row<TypeRow>>, todo := [], count;
    GoStart(step, count, reader.at, reader.maxWork - reader.work);
    for i := 0 to count
      invariant Going(step, whole, rows, todo, reader.at, reader.maxWork - reader.work, room)
      invariant todo == count - i && old(reader.work) <= reader.work <= reader.maxWork
      invariant |rows| == i && (tables.retain ==> Stored(tables.types, rows))
    {
      var row := NextType(reader, header, limits, step, whole, rows, todo, room, i, tables.types, tables.retain);
      if row.None? {
        return None, false;
      }
      rows, todo := rows + [row.value], todo - 1;
    }
    GoEnd(step, whole, rows, reader.at, reader.maxWork - reader.work, room);
    if tables.retain {
      StoredAll(tables.types, rows);
    }
    return Some(rows), true;
  }

  /** `step` reads object rows. */
  ghost predicate ReadsObject(step: Step<ObjectRow>, input: Input, header: Header, typeCount: nat) {
    forall at {:trigger IsObject(step, input, header, typeCount, at)} :: IsObject(step, input, header, typeCount, at)
  }

  ghost predicate IsObject(step: Step<ObjectRow>, input: Input, header: Header, typeCount: nat, at: At) {
    step(at) == TakeObjectRow(input, header, typeCount, at)
  }

  /** One turn of the table loop. */
  method NextObject(reader: Reader, header: Header, typeCount: nat, ghost step: Step<ObjectRow>,
                    ghost whole: Reply<seq<Row<ObjectRow>>>, ghost rows: seq<Row<ObjectRow>>,
                  ghost count: nat, ghost room: int, i: nat, table: array<Row<ObjectRow>>, retain: bool)
    returns (row: Option<Row<ObjectRow>>)
    requires count > 0 && reader.Valid() && |rows| == i && (retain ==> i < table.Length && Stored(table, rows))
    requires ReadsObject(step, reader.input, header, typeCount) && Advances(step)
    requires Going(step, whole, rows, count, reader.at, reader.maxWork - reader.work, room)
    modifies reader, table
    ensures old(reader.work) <= reader.work <= reader.maxWork
    ensures row.None? ==> Stops(whole, reader.reason, room)
    ensures row.Some? ==>
      Going(step, whole, rows + [row.value], count - 1, reader.at, reader.maxWork - reader.work, room)
    ensures row.Some? && retain ==> Stored(table, rows + [row.value])
  {
    ghost var here, left := reader.at, reader.maxWork - reader.work;
    assert IsObject(step, reader.input, header, typeCount, here);
    row := ScanObject(reader, header, typeCount);
    if row.None? {
      GoStop(step, whole, rows, count, here, left, room, reader.reason);
    } else {
      GoOn(step, whole, rows, count, here, left, room, row.value, reader.at, reader.maxWork - reader.work);
      Store(table, i, row.value, rows, retain);
    }
  }

  method ScanObjectRows(reader: Reader, ghost step: Step<ObjectRow>, header: Header, typeCount: nat, count: nat,
                        tables: Tables)
    returns (ghost out: Option<seq<Row<ObjectRow>>>, ok: bool)
    requires ReadsObject(step, reader.input, header, typeCount) && Advances(step)
    requires reader.Valid() && (tables.retain ==> tables.objects.Length == count)
    modifies reader, tables.objects
    ensures reader.Valid() && ok == out.Some?
    ensures reader.Ran(out, TakeRows(step, count, old(reader.at)))
    ensures ok && tables.retain ==> tables.objects[..] == out.value
  {
    ghost var whole, room := TakeRows(step, count, reader.at), reader.maxWork - reader.work + Weight(reader.at);
    ghost var rows: seq<Row<ObjectRow>>, todo := [], count;
    GoStart(step, count, reader.at, reader.maxWork - reader.work);
    for i := 0 to count
      invariant Going(step, whole, rows, todo, reader.at, reader.maxWork - reader.work, room)
      invariant todo == count - i && old(reader.work) <= reader.work <= reader.maxWork
      invariant |rows| == i && (tables.retain ==> Stored(tables.objects, rows))
    {
      var row := NextObject(reader, header, typeCount, step, whole, rows, todo, room, i, tables.objects, tables.retain);
      if row.None? {
        return None, false;
      }
      rows, todo := rows + [row.value], todo - 1;
    }
    GoEnd(step, whole, rows, reader.at, reader.maxWork - reader.work, room);
    if tables.retain {
      StoredAll(tables.objects, rows);
    }
    return Some(rows), true;
  }

  /** The type table. On replay the planned capacity is the count read again. */
  method ScanTypes(reader: Reader, header: Header, limits: Limits, tables: Tables)
    returns (ghost out: Option<Types>, ok: bool, count: nat)
    requires reader.Valid()
    requires tables.retain ==> TakeTypes(reader.input, header, limits, reader.at).Got?
    requires tables.retain ==>
      tables.types.Length == TakeTypes(reader.input, header, limits, reader.at).value.count.bits
    modifies reader, tables.types
    ensures reader.Valid() && ok == out.Some?
      && reader.Ran(out, TakeTypes(reader.input, header, limits, old(reader.at)))
    ensures ok ==> count == out.value.count.bits
    ensures ok && tables.retain ==> tables.types[..] == out.value.rows
  {
    TypesOutweigh(reader.input, header, limits, reader.at);
    var word := reader.ReadCount();
    if word.None? {
      return None, false, 0;
    }
    count := word.value.bits;
    if count > limits.maxTypes {
      reader.reason := CountLimit;
      return None, false, 0;
    }
    assert tables.retain ==> count == tables.types.Length;
    ghost var rows;
    TypesAdvance(reader.input, header, limits);
    rows, ok := ScanTypeRows(reader, TypeStep(reader.input, header, limits), header, limits, count, tables);
    out := if ok then Some(Types(word.value, rows.value)) else None;
  }

  /** The object table behind its padding. On replay the planned capacity is the count read again. */
  method ScanObjects(reader: Reader, header: Header, limits: Limits, typeCount: nat, tables: Tables)
    returns (ghost out: Option<Objects>, ok: bool, count: nat)
    requires reader.Valid() && V22_HEADER_SIZE <= reader.at.position
    requires tables.retain ==> TakeObjects(reader.input, header, limits, typeCount, reader.at).Got?
    requires tables.retain ==>
      tables.objects.Length == TakeObjects(reader.input, header, limits, typeCount, reader.at).value.count.bits
    modifies reader, tables.objects
    ensures reader.Valid() && ok == out.Some?
    ensures reader.Ran(out, TakeObjects(reader.input, header, limits, typeCount, old(reader.at)))
    ensures ok ==> count == out.value.count.bits
    ensures ok && tables.retain ==> tables.objects[..] == out.value.rows
  {
    ObjectsOutweigh(reader.input, header, limits, typeCount, reader.at);
    var word := reader.ReadCount();
    if word.None? {
      return None, false, 0;
    }
    count := word.value.bits;
    if count > limits.maxObjects {
      reader.reason := CountLimit;
      return None, false, 0;
    }
    assert tables.retain ==> count == tables.objects.Length;
    var padding := reader.TakeSpan(Padding(reader.at.position, count));
    if padding.None? {
      return None, false, 0;
    }
    ghost var rows;
    ObjectsAdvance(reader.input, header, typeCount);
    rows, ok := ScanObjectRows(reader, ObjectStep(reader.input, header, typeCount), header, typeCount, count, tables);
    out := if ok then Some(Objects(word.value, padding.value, rows.value)) else None;
  }

  datatype Counts = Counts(types: nat, objects: nat)

  /** `scan_directory`, for measuring and for replay alike. */
  method ScanDirectory(reader: Reader, header: Header, limits: Limits, tables: Tables)
    returns (ghost out: Option<View>, ok: bool, counts: Counts)
    requires reader.Valid() && V22_HEADER_SIZE <= reader.at.position
    requires tables.Fits(TakeDirectory(reader.input, header, limits, reader.at))
    modifies reader, tables.types, tables.objects
    ensures reader.Valid() && ok == out.Some?
      && reader.Ran(out, TakeDirectory(reader.input, header, limits, old(reader.at)))
    ensures ok ==> counts == Counts(|out.value.types.rows|, |out.value.objects.rows|)
    ensures ok && tables.retain ==>
      tables.types[..] == out.value.types.rows && tables.objects[..] == out.value.objects.rows
  {
    ghost var input, start := reader.input, reader.at;
    counts := Counts(0, 0);
    PartsOfDirectory(input, header, limits, start);
    ghost var types, objects;
    var typeCount, objectCount;
    types, ok, typeCount := ScanTypes(reader, header, limits, tables);
    if !ok {
      return None, false, counts;
    }
    objects, ok, objectCount := ScanObjects(reader, header, limits, typeCount, tables);
    if !ok {
      return None, false, counts;
    }
    counts := Counts(typeCount, objectCount);
    out := Some(View(types.value, objects.value));
  }

  /** How the parts of a directory weigh on the whole, and how many rows they hold. */
  lemma PartsOfDirectory(input: Input, header: Header, limits: Limits, at: At)
    ensures var types := TakeTypes(input, header, limits, at);
            types.Got? ==>
              && at.position <= types.at.position && |types.value.rows| == types.value.count.bits
              && var objects := TakeObjects(input, header, limits, types.value.count.bits, types.at);
                 objects.Got? ==>
                   |objects.value.rows| == objects.value.count.bits
                   && Weight(types.at) <= Weight(objects.at)
  {
    var types := TakeTypes(input, header, limits, at);
    if types.Got? {
      TypesTile(input, header, limits, at);
      var objects := TakeObjects(input, header, limits, types.value.count.bits, types.at);
      if objects.Got? {
        ObjectsTile(input, header, limits, types.value.count.bits, types.at);
      }
    }
  }

  // ----- Two passes -----

  /** What creating a directory is given besides its input. */
  datatype Plan = Plan(limits: Limits, headerSize: nat, arrays: seq<Array>, maxRetained: nat, maxWork: u64)

  predicate ValidPlan(plan: Plan) {
    |plan.arrays| == 2 && Aligned(plan.arrays)
  }

  function Retained(plan: Plan, counts: Counts): Option<nat>
    requires ValidPlan(plan)
  {
    PlanArrays(plan.headerSize, plan.arrays, [counts.types, counts.objects])
  }

  function CountsOf(view: View): Counts {
    Counts(|view.types.rows|, |view.objects.rows|)
  }

  /** The whole charge of a successful creation: both scans, the retained bytes, and one unit before and after. */
  function TotalWork(before: nat, start: At, end: At, retained: nat): int {
    before + 2 * (Weight(end) - Weight(start)) + retained + 2
  }

  predicate CanCreate(plan: Plan, reply: Reply<View>, start: At, before: nat, memory: bool)
    requires ValidPlan(plan)
  {
    && reply.Got? && memory
    && var retained := Retained(plan, CountsOf(reply.value));
       retained.Some? && retained.value <= plan.maxRetained
       && TotalWork(before, start, reply.at, retained.value) <= plan.maxWork
  }

  /** The result is exactly the measured view, at exactly the announced cost. */
  ghost predicate Created(plan: Plan, reply: Reply<View>, start: At, before: nat, tables: Tables, work: nat)
    requires ValidPlan(plan) && reply.Got?
    reads tables.types, tables.objects
  {
    && tables.types[..] == reply.value.types.rows && tables.objects[..] == reply.value.objects.rows
    && var retained := Retained(plan, CountsOf(reply.value));
       retained.Some? && work == TotalWork(before, start, reply.at, retained.value)
  }

  /** Measure: the first pass and the storage plan. */
  method Measure(reader: Reader, header: Header, plan: Plan)
    returns (failure: Option<Failure>, counts: Counts, retained: nat)
    requires reader.Valid() && V22_HEADER_SIZE <= reader.at.position && ValidPlan(plan)
      && reader.maxWork == plan.maxWork
    modifies reader
    ensures reader.Valid() && old(reader.work) <= reader.work
    ensures var reply := TakeDirectory(reader.input, header, plan.limits, old(reader.at));
            && (failure.None? <==>
                  && reply.Got? && var r := Retained(plan, CountsOf(reply.value));
                     r.Some? && r.value <= plan.maxRetained
                     && old(reader.work) + Weight(reply.at) - Weight(old(reader.at)) + 1 + r.value <= plan.maxWork)
            && (failure.None? ==>
                  && counts == CountsOf(reply.value) && Retained(plan, counts) == Some(retained)
                  && reader.work == old(reader.work) + Weight(reply.at) - Weight(old(reader.at)) + 1 + retained)
            && (reply.Got? && failure.Some? ==> failure.value == RetainedLimit || failure.value == OutOfWork)
            && (failure.Some? && failure.value.ScanFailed? ==> reply == Refused(failure.value.reason))
  {
    ghost var start, before := reader.at, reader.work;
    retained := 0;
    var none := new Tables(false, 0, 0);
    ghost var view;
    var ok;
    view, ok, counts := ScanDirectory(reader, header, plan.limits, none);
    if !ok {
      return Some(if reader.reason == WorkLimit then OutOfWork else ScanFailed(reader.reason)), counts, 0;
    }
    if 1 > reader.maxWork - reader.work {
      return Some(OutOfWork), counts, 0;
    }
    reader.work := reader.work + 1;
    var size := Retained(plan, counts);
    if size.None? || size.value > plan.maxRetained {
      return Some(RetainedLimit), counts, 0;
    }
    retained := size.value;
    if retained > reader.maxWork - reader.work {
      return Some(OutOfWork), counts, retained;
    }
    reader.work := reader.work + retained;
    failure := None;
  }

  /** Replay the scan into the retained tables: only the work budget can stop it. */
  method Replay(reader: Reader, header: Header, plan: Plan, start: At, tables: Tables) returns (ok: bool)
    requires reader.Valid() && V22_HEADER_SIZE <= start.position && tables.retain && reader.maxWork == plan.maxWork
    requires tables.Fits(TakeDirectory(reader.input, header, plan.limits, start))
    modifies reader, tables.types, tables.objects
    ensures reader.Valid()
    ensures var reply := TakeDirectory(reader.input, header, plan.limits, start);
            && ok == (old(reader.work) + Weight(reply.at) - Weight(start) + 1 <= plan.maxWork)
            && (ok ==> reader.work == old(reader.work) + Weight(reply.at) - Weight(start) + 1)
            && (ok ==> tables.types[..] == reply.value.types.rows && tables.objects[..] == reply.value.objects.rows)
            && (!ok ==> reader.reason == WorkLimit)
  {
    reader.at := start;
    ghost var view;
    var counts;
    view, ok, counts := ScanDirectory(reader, header, plan.limits, tables);
    if !ok {
      return;
    }
    if 1 > reader.maxWork - reader.work {
      reader.reason := WorkLimit;
      return false;
    }
    reader.work := reader.work + 1;
  }

  /** The announced cost in the terms of the design: twice the scanned bytes and rows, the retained bytes, and two. */
  lemma CostOfCreation(input: Input, header: Header, plan: Plan, start: At, before: nat, retained: nat)
    requires TakeDirectory(input, header, plan.limits, start).Got?
    ensures var r := TakeDirectory(input, header, plan.limits, start);
            TotalWork(before, start, r.at, retained)
            == before + 2 * ((r.at.position - start.position) + |r.value.types.rows| + |r.value.objects.rows|) +
              retained + 2
  {
    DirectoryTiles(input, header, plan.limits, start);
  }

  // ----- What is created, from the bytes alone -----

  /** The storage and twice the bytes and rows of a directory are within the plan. */
  predicate FitsPlan(plan: Plan, start: At, before: nat, view: View, end: At)
    requires ValidPlan(plan)
  {
    var retained := Retained(plan, Counts(|view.types.rows|, |view.objects.rows|));
    && retained.Some? && retained.value <= plan.maxRetained
    && before + 2 * ((end.position - start.position) + |view.types.rows| + |view.objects.rows|) + retained.value + 2
       <= plan.maxWork
  }

  /** The bytes spell a directory within the limits, and it fits the plan. */
  ghost predicate Creatable(input: Input, header: Header, plan: Plan, start: At, before: nat)
    requires ValidPlan(plan)
  {
    exists view: View, end: At {:trigger DirectoryReads(input, header, plan.limits, start, view, end)} ::
      DirectoryReads(input, header, plan.limits, start, view, end) && FitsPlan(plan, start, before, view, end)
  }

  /** The tables hold the rows of a directory that the bytes spell. */
  ghost predicate SpelledTables(input: Input, header: Header, limits: Limits, start: At, tables: Tables)
    reads tables.types, tables.objects
  {
    exists view: View, end: At {:trigger DirectoryReads(input, header, limits, start, view, end)} ::
      && DirectoryReads(input, header, limits, start, view, end)
      && tables.types[..] == view.types.rows && tables.objects[..] == view.objects.rows
  }

  lemma CreatableWhenSpelled(input: Input, header: Header, plan: Plan, start: At, before: nat)
    requires ValidPlan(plan)
    ensures CanCreate(plan, TakeDirectory(input, header, plan.limits, start), start, before, true)
            <==> Creatable(input, header, plan, start, before)
    ensures var r := TakeDirectory(input, header, plan.limits, start);
            r.Got? ==> DirectoryReads(input, header, plan.limits, start, r.value, r.at)
  {
    var r := TakeDirectory(input, header, plan.limits, start);
    if r.Got? {
      DirectoryReadsExactly(input, header, plan.limits, start, r.value, r.at);
      var retained := Retained(plan, CountsOf(r.value));
      if retained.Some? {
        CostOfCreation(input, header, plan, start, before, retained.value);
      }
    }
    forall view: View, end: At | DirectoryReads(input, header, plan.limits, start, view, end)
      ensures r == Got(view, end)
    {
      DirectoryReadsExactly(input, header, plan.limits, start, view, end);
    }
  }

  /** `serialized_file_directory_create` behind the prefix: measure, allocate, replay. The replay either runs
      out of work or reproduces the measured view; it cannot find the metadata malformed. */
  method CreateDirectory(input: Input, header: Header, plan: Plan, start: At, before: nat, memory: bool)
    returns (failure: Option<Failure>, tables: Tables, work: nat)
    requires ValidPlan(plan) && V22_HEADER_SIZE <= start.position && before <= plan.maxWork
    ensures work <= plan.maxWork
    ensures failure.None? <==> CanCreate(plan, TakeDirectory(input, header, plan.limits, start), start, before, memory)
    ensures failure.None? ==>
      Created(plan, TakeDirectory(input, header, plan.limits, start), start, before, tables, work)
    ensures failure.Some? && failure.value.ScanFailed? ==>
      TakeDirectory(input, header, plan.limits, start) == Refused(failure.value.reason)
    ensures failure.None? <==> memory && Creatable(input, header, plan, start, before)
    ensures failure.None? ==> SpelledTables(input, header, plan.limits, start, tables)
  {
    ghost var reply := TakeDirectory(input, header, plan.limits, start);
    assert reply.Got? ==> Weight(start) <= Weight(reply.at) by {
      if reply.Got? {
        DirectoryTiles(input, header, plan.limits, start);
      }
    }
    CreatableWhenSpelled(input, header, plan, start, before);
    var reader := new Reader(input, plan.maxWork, start, before);
    var counts, retained;
    failure, counts, retained := Measure(reader, header, plan);
    tables := new Tables(false, 0, 0);
    if failure.Some? {
      return failure, tables, reader.work;
    }
    if !memory {
      return Some(OutOfMemory), tables, reader.work;
    }
    tables := new Tables(true, counts.types, counts.objects);
    var ok := Replay(reader, header, plan, start, tables);
    return if ok then None else Some(OutOfWork), tables, reader.work;
  }
}
