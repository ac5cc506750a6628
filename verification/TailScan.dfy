/** The tail scanner at work, and its two passes (src/io/serialized_file_metadata_tail.c). */
module TailScan {
  import opened Bytes
  import opened MetadataReader
  import opened MetadataTail
  import opened TailWire
  import opened RetainedStorage
  import Directory

  /** The tables a pass fills; a measuring pass retains nothing. */
  class Tables {
    const retain: bool
    const scripts: array<Row<ScriptRow>>
    const externals: array<Row<ExternalRow>>
    const references: array<Row<ReferenceRow>>

    constructor (retain: bool, counts: Counts)
      ensures this.retain == retain && fresh(scripts) && fresh(externals) && fresh(references)
      ensures scripts.Length == counts.scripts && externals.Length == counts.externals
        && references.Length == counts.references
    {
      this.retain := retain;
      var span, noWord := Span(0, 0), Word(Span(0, 0), 0);
      var noPrefix := TypePrefix(noWord, span, 0, span, 0, None, span);
      scripts := new Row<ScriptRow>[counts.scripts](_ => Row(ScriptRow(noWord, span, span, 0), span));
      externals := new Row<ExternalRow>[counts.externals](_ => Row(ExternalRow(span, span, [], noWord, span), span));
      references := new Row<ReferenceRow>[counts.references](_ => Row(ReferenceRow(noPrefix, None), span));
    }

    /** There is room for the rows of this tail. */
    ghost predicate Fits(reply: Reply<Tail>) {
      retain ==>
        reply.Got? && scripts.Length == |reply.value.scripts.rows|
        && externals.Length == |reply.value.externals.rows|
        && references.Length == |reply.value.references.rows|
    }
  }

  datatype Counts = Counts(scripts: nat, externals: nat, references: nat)

  // ----- Rows -----

  method ReadScript(reader: Reader) returns (out: Option<ScriptRow>)
    requires reader.Valid()
    modifies reader
    ensures reader.Valid() && reader.Ran(out, TakeScript(reader.input, old(reader.at)))
  {
    var fileIndex := reader.ReadWord();
    if fileIndex.None? {
      return None;
    }
    var alignment := reader.TakeSpan(PaddingAt(reader.at.position));
    if alignment.None? {
      return None;
    }
    var identifier := reader.TakeSpan(IDENTIFIER_SIZE);
    if identifier.None? {
      return None;
    }
    out := Some(ScriptRow(fileIndex.value, alignment.value, identifier.value,
                          Decode64(Content(reader.input, identifier.value), reader.input.bigEndian)));
  }

  method ReadExternal(reader: Reader, limits: Limits) returns (out: Option<ExternalRow>)
    requires reader.Valid()
    modifies reader
    ensures reader.Valid() && reader.Ran(out, TakeExternal(reader.input, limits, old(reader.at)))
  {
    var leading := reader.ReadString(limits.maxTerminated);
    if leading.None? {
      return None;
    }
    var guid := reader.TakeSpan(GUID_SIZE);
    if guid.None? {
      return None;
    }
    var kind := reader.ReadWord();
    if kind.None? {
      return None;
    }
    var path := reader.ReadString(limits.maxTerminated);
    if path.None? {
      return None;
    }
    out := Some(ExternalRow(leading.value, guid.value, GuidWords(reader.input, guid.value), kind.value, path.value));
  }

  method ReadNames(reader: Reader, limits: Limits) returns (out: Option<ReferenceNames>)
    requires reader.Valid()
    modifies reader
    ensures reader.Valid() && reader.Ran(out, TakeNames(reader.input, limits, old(reader.at)))
  {
    var tree := reader.ReadTree(limits.tree);
    if tree.None? {
      return None;
    }
    var className := reader.ReadString(limits.maxTerminated);
    if className.None? {
      return None;
    }
    var nameSpace := reader.ReadString(limits.maxTerminated);
    if nameSpace.None? {
      return None;
    }
    var assembly := reader.ReadString(limits.maxTerminated);
    if assembly.None? {
      return None;
    }
    out := Some(ReferenceNames(tree.value, className.value, nameSpace.value, assembly.value));
  }

  method ReadReference(reader: Reader, limits: Limits, treeEnabled: bool) returns (out: Option<ReferenceRow>)
    requires reader.Valid()
    modifies reader
    ensures reader.Valid() && reader.Ran(out, TakeReference(reader.input, limits, treeEnabled, old(reader.at)))
  {
    var prefix := reader.ReadTypePrefix();
    if prefix.None? {
      return None;
    }
    if !treeEnabled {
      return Some(ReferenceRow(prefix.value, None));
    }
    var names := ReadNames(reader, limits);
    out := if names.None? then None else Some(ReferenceRow(prefix.value, names));
  }

  // ----- Scripts -----

  /** `step` reads script rows. */
  ghost predicate ReadsScript(step: Step<ScriptRow>, input: Input) {
    forall at {:trigger IsScript(step, input, at)} :: IsScript(step, input, at)
  }

  ghost predicate IsScript(step: Step<ScriptRow>, input: Input, at: At) {
    step(at) == TakeScript(input, at)
  }

  /** One script row with the unit charged for completing it, as one turn of the table loop. */
  method NextScript(reader: Reader, ghost step: Step<ScriptRow>, ghost whole: Reply<seq<Row<ScriptRow>>>,
                    ghost rows: seq<Row<ScriptRow>>,
                  ghost count: nat, ghost room: int, i: nat, table: array<Row<ScriptRow>>, retain: bool)
    returns (row: Option<Row<ScriptRow>>)
    requires count > 0 && reader.Valid() && |rows| == i && (retain ==> i < table.Length && Stored(table, rows))
    requires ReadsScript(step, reader.input) && Advances(step)
    requires Going(step, whole, rows, count, reader.at, reader.maxWork - reader.work, room)
    modifies reader, table
    ensures old(reader.work) <= reader.work <= reader.maxWork
    ensures row.None? ==> Stops(whole, reader.reason, room)
    ensures row.Some? ==>
      Going(step, whole, rows + [row.value], count - 1, reader.at, reader.maxWork - reader.work, room)
    ensures row.Some? && retain ==> Stored(table, rows + [row.value])
  {
    ghost var here, left := reader.at, reader.maxWork - reader.work;
    assert IsScript(step, reader.input, here);
    row := ScanScript(reader);
    if row.None? {
      GoStop(step, whole, rows, count, here, left, room, reader.reason);
    } else {
      GoOn(step, whole, rows, count, here, left, room, row.value, reader.at, reader.maxWork - reader.work);
      Store(table, i, row.value, rows, retain);
    }
  }

  method ScanScript(reader: Reader) returns (out: Option<Row<ScriptRow>>)
    requires reader.Valid()
    modifies reader
    ensures reader.Valid()
    ensures reader.Ran(out, Completed(old(reader.at).position, TakeScript(reader.input, old(reader.at))))
  {
    var start := reader.at.position;
    ghost var reply, before, charged := TakeScript(reader.input, reader.at), reader.at, reader.work;
    var row := ReadScript(reader);
    out := reader.CompleteRow(row, reply, start, before, charged);
  }

  method ScanScriptRows(reader: Reader, ghost step: Step<ScriptRow>, count: nat, table: array<Row<ScriptRow>>,
                        retain: bool)
    returns (ghost out: Option<seq<Row<ScriptRow>>>, ok: bool)
    requires ReadsScript(step, reader.input) && Advances(step)
    requires reader.Valid() && (retain ==> table.Length == count)
    modifies reader, table
    ensures reader.Valid() && ok == out.Some? && reader.Ran(out, TakeRows(step, count, old(reader.at)))
    ensures ok && retain ==> table[..] == out.value
  {
    ghost var whole, room := TakeRows(step, count, reader.at), reader.maxWork - reader.work + Weight(reader.at);
    ghost var rows: seq<Row<ScriptRow>>, todo := [], count;
    GoStart(step, count, reader.at, reader.maxWork - reader.work);
    for i := 0 to count
      invariant Going(step, whole, rows, todo, reader.at, reader.maxWork - reader.work, room)
      invariant todo == count - i && old(reader.work) <= reader.work <= reader.maxWork
      invariant |rows| == i && (retain ==> Stored(table, rows))
    {
      var row := NextScript(reader, step, whole, rows, todo, room, i, table, retain);
      if row.None? {
        return None, false;
      }
      rows, todo := rows + [row.value], todo - 1;
    }
    GoEnd(step, whole, rows, reader.at, reader.maxWork - reader.work, room);
    if retain {
      StoredAll(table, rows);
    }
    return Some(rows), true;
  }

  /** The script table. On replay the planned capacity is the count read again. */
  method ScanScripts(reader: Reader, limits: Limits, table: array<Row<ScriptRow>>, retain: bool)
    returns (ghost out: Option<Table<ScriptRow>>, ok: bool, count: nat)
    requires reader.Valid()
    requires retain ==>
      TakeScripts(reader.input, limits, reader.at).Got?
      && table.Length == TakeScripts(reader.input, limits, reader.at).value.count.bits
    modifies reader, table
    ensures reader.Valid() && ok == out.Some? && reader.Ran(out, TakeScripts(reader.input, limits, old(reader.at)))
    ensures ok ==> count == out.value.count.bits
    ensures ok && retain ==> table[..] == out.value.rows
  {
    ScriptsAdvance(reader.input);
    TableOutweighs(reader.input, ScriptStep(reader.input), limits.maxScripts, reader.at);
    var word := reader.ReadCount();
    if word.None? {
      return None, false, 0;
    }
    count := word.value.bits;
    if count > limits.maxScripts {
      reader.reason := CountLimit;
      return None, false, 0;
    }
    assert retain ==> count == table.Length;
    ghost var rows;
    rows, ok := ScanScriptRows(reader, ScriptStep(reader.input), count, table, retain);
    out := if ok then Some(Table(word.value, rows.value)) else None;
  }

  // ----- Externals -----

  /** `step` reads external rows. */
  ghost predicate ReadsExternal(step: Step<ExternalRow>, input: Input, limits: Limits) {
    forall at {:trigger IsExternal(step, input, limits, at)} :: IsExternal(step, input, limits, at)
  }

  ghost predicate IsExternal(step: Step<ExternalRow>, input: Input, limits: Limits, at: At) {
    step(at) == TakeExternal(input, limits, at)
  }

  /** One external row with the unit charged for completing it, as one turn of the table loop. */
  method NextExternal(reader: Reader, limits: Limits, ghost step: Step<ExternalRow>,
                      ghost whole: Reply<seq<Row<ExternalRow>>>, ghost rows: seq<Row<ExternalRow>>,
                  ghost count: nat, ghost room: int, i: nat, table: array<Row<ExternalRow>>, retain: bool)
    returns (row: Option<Row<ExternalRow>>)
    requires count > 0 && reader.Valid() && |rows| == i && (retain ==> i < table.Length && Stored(table, rows))
    requires ReadsExternal(step, reader.input, limits) && Advances(step)
    requires Going(step, whole, rows, count, reader.at, reader.maxWork - reader.work, room)
    modifies reader, table
    ensures old(reader.work) <= reader.work <= reader.maxWork
    ensures row.None? ==> Stops(whole, reader.reason, room)
    ensures row.Some? ==>
      Going(step, whole, rows + [row.value], count - 1, reader.at, reader.maxWork - reader.work, room)
    ensures row.Some? && retain ==> Stored(table, rows + [row.value])
  {
    ghost var here, left := reader.at, reader.maxWork - reader.work;
    assert IsExternal(step, reader.input, limits, here);
    row := ScanExternal(reader, limits);
    if row.None? {
      GoStop(step, whole, rows, count, here, left, room, reader.reason);
    } else {
      GoOn(step, whole, rows, count, here, left, room, row.value, reader.at, reader.maxWork - reader.work);
      Store(table, i, row.value, rows, retain);
    }
  }

  method ScanExternal(reader: Reader, limits: Limits) returns (out: Option<Row<ExternalRow>>)
    requires reader.Valid()
    modifies reader
    ensures reader.Valid()
    ensures reader.Ran(out, Completed(old(reader.at).position, TakeExternal(reader.input, limits, old(reader.at))))
  {
    var start := reader.at.position;
    ghost var reply, before, charged := TakeExternal(reader.input, limits, reader.at), reader.at, reader.work;
    var row := ReadExternal(reader, limits);
    out := reader.CompleteRow(row, reply, start, before, charged);
  }

  method ScanExternalRows(reader: Reader, ghost step: Step<ExternalRow>, limits: Limits, count: nat,
                          table: array<Row<ExternalRow>>, retain: bool)
    returns (ghost out: Option<seq<Row<ExternalRow>>>, ok: bool)
    requires ReadsExternal(step, reader.input, limits) && Advances(step)
    requires reader.Valid() && (retain ==> table.Length == count)
    modifies reader, table
    ensures reader.Valid() && ok == out.Some? && reader.Ran(out, TakeRows(step, count, old(reader.at)))
    ensures ok && retain ==> table[..] == out.value
  {
    ghost var whole, room := TakeRows(step, count, reader.at), reader.maxWork - reader.work + Weight(reader.at);
    ghost var rows: seq<Row<ExternalRow>>, todo := [], count;
    GoStart(step, count, reader.at, reader.maxWork - reader.work);
    for i := 0 to count
      invariant Going(step, whole, rows, todo, reader.at, reader.maxWork - reader.work, room)
      invariant todo == count - i && old(reader.work) <= reader.work <= reader.maxWork
      invariant |rows| == i && (retain ==> Stored(table, rows))
    {
      var row := NextExternal(reader, limits, step, whole, rows, todo, room, i, table, retain);
      if row.None? {
        return None, false;
      }
      rows, todo := rows + [row.value], todo - 1;
    }
    GoEnd(step, whole, rows, reader.at, reader.maxWork - reader.work, room);
    if retain {
      StoredAll(table, rows);
    }
    return Some(rows), true;
  }

  /** The external table. On replay the planned capacity is the count read again. */
  method ScanExternals(reader: Reader, limits: Limits, table: array<Row<ExternalRow>>, retain: bool)
    returns (ghost out: Option<Table<ExternalRow>>, ok: bool, count: nat)
    requires reader.Valid()
    requires retain ==>
      TakeExternals(reader.input, limits, reader.at).Got?
      && table.Length == TakeExternals(reader.input, limits, reader.at).value.count.bits
    modifies reader, table
    ensures reader.Valid() && ok == out.Some? && reader.Ran(out, TakeExternals(reader.input, limits, old(reader.at)))
    ensures ok ==> count == out.value.count.bits
    ensures ok && retain ==> table[..] == out.value.rows
  {
    ExternalsAdvance(reader.input, limits);
    TableOutweighs(reader.input, ExternalStep(reader.input, limits), limits.maxExternals, reader.at);
    var word := reader.ReadCount();
    if word.None? {
      return None, false, 0;
    }
    count := word.value.bits;
    if count > limits.maxExternals {
      reader.reason := CountLimit;
      return None, false, 0;
    }
    assert retain ==> count == table.Length;
    ghost var rows;
    rows, ok := ScanExternalRows(reader, ExternalStep(reader.input, limits), limits, count, table, retain);
    out := if ok then Some(Table(word.value, rows.value)) else None;
  }

  // ----- Reference types -----

  /** `step` reads reference rows. */
  ghost predicate ReadsReference(step: Step<ReferenceRow>, input: Input, limits: Limits, treeEnabled: bool) {
    forall at {:trigger IsReference(step, input, limits, treeEnabled, at)} ::
      IsReference(step, input, limits, treeEnabled, at)
  }

  ghost predicate IsReference(step: Step<ReferenceRow>, input: Input, limits: Limits, treeEnabled: bool, at: At) {
    step(at) == TakeReference(input, limits, treeEnabled, at)
  }

  /** One reference row with the unit charged for completing it, as one turn of the table loop. */
  method NextReference(reader: Reader, limits: Limits, treeEnabled: bool, ghost step: Step<ReferenceRow>,
                       ghost whole: Reply<seq<Row<ReferenceRow>>>, ghost rows: seq<Row<ReferenceRow>>,
                  ghost count: nat, ghost room: int, i: nat, table: array<Row<ReferenceRow>>, retain: bool)
    returns (row: Option<Row<ReferenceRow>>)
    requires count > 0 && reader.Valid() && |rows| == i && (retain ==> i < table.Length && Stored(table, rows))
    requires ReadsReference(step, reader.input, limits, treeEnabled) && Advances(step)
    requires Going(step, whole, rows, count, reader.at, reader.maxWork - reader.work, room)
    modifies reader, table
    ensures old(reader.work) <= reader.work <= reader.maxWork
    ensures row.None? ==> Stops(whole, reader.reason, room)
    ensures row.Some? ==>
      Going(step, whole, rows + [row.value], count - 1, reader.at, reader.maxWork - reader.work, room)
    ensures row.Some? && retain ==> Stored(table, rows + [row.value])
  {
    ghost var here, left := reader.at, reader.maxWork - reader.work;
    assert IsReference(step, reader.input, limits, treeEnabled, here);
    row := ScanReference(reader, limits, treeEnabled);
    if row.None? {
      GoStop(step, whole, rows, count, here, left, room, reader.reason);
    } else {
      GoOn(step, whole, rows, count, here, left, room, row.value, reader.at, reader.maxWork - reader.work);
      Store(table, i, row.value, rows, retain);
    }
  }

  method ScanReference(reader: Reader, limits: Limits, treeEnabled: bool) returns (out: Option<Row<ReferenceRow>>)
    requires reader.Valid()
    modifies reader
    ensures reader.Valid()
    ensures reader.Ran(out,
                       Completed(old(reader.at).position,
                                 TakeReference(reader.input, limits, treeEnabled, old(reader.at))))
  {
    var start := reader.at.position;
    ghost var reply, before, charged :=
      TakeReference(reader.input, limits, treeEnabled, reader.at), reader.at, reader.work;
    var row := ReadReference(reader, limits, treeEnabled);
    out := reader.CompleteRow(row, reply, start, before, charged);
  }

  method ScanReferenceRows(reader: Reader, ghost step: Step<ReferenceRow>, limits: Limits, treeEnabled: bool,
                           count: nat, table: array<Row<ReferenceRow>>, retain: bool)
    returns (ghost out: Option<seq<Row<ReferenceRow>>>, ok: bool)
    requires ReadsReference(step, reader.input, limits, treeEnabled) && Advances(step)
    requires reader.Valid() && (retain ==> table.Length == count)
    modifies reader, table
    ensures reader.Valid() && ok == out.Some? && reader.Ran(out, TakeRows(step, count, old(reader.at)))
    ensures ok && retain ==> table[..] == out.value
  {
    ghost var whole, room := TakeRows(step, count, reader.at), reader.maxWork - reader.work + Weight(reader.at);
    ghost var rows: seq<Row<ReferenceRow>>, todo := [], count;
    GoStart(step, count, reader.at, reader.maxWork - reader.work);
    for i := 0 to count
      invariant Going(step, whole, rows, todo, reader.at, reader.maxWork - reader.work, room)
      invariant todo == count - i && old(reader.work) <= reader.work <= reader.maxWork
      invariant |rows| == i && (retain ==> Stored(table, rows))
    {
      var row := NextReference(reader, limits, treeEnabled, step, whole, rows, todo, room, i, table, retain);
      if row.None? {
        return None, false;
      }
      rows, todo := rows + [row.value], todo - 1;
    }
    GoEnd(step, whole, rows, reader.at, reader.maxWork - reader.work, room);
    if retain {
      StoredAll(table, rows);
    }
    return Some(rows), true;
  }

  /** The reference table. On replay the planned capacity is the count read again. */
  method ScanReferences(reader: Reader, limits: Limits, treeEnabled: bool, table: array<Row<ReferenceRow>>,
                        retain: bool)
    returns (ghost out: Option<Table<ReferenceRow>>, ok: bool, count: nat)
    requires reader.Valid()
    requires retain ==>
      TakeReferences(reader.input, limits, treeEnabled, reader.at).Got?
      && table.Length == TakeReferences(reader.input, limits, treeEnabled, reader.at).value.count.bits
    modifies reader, table
    ensures reader.Valid() && ok == out.Some?
      && reader.Ran(out, TakeReferences(reader.input, limits, treeEnabled, old(reader.at)))
    ensures ok ==> count == out.value.count.bits
    ensures ok && retain ==> table[..] == out.value.rows
  {
    ReferencesAdvance(reader.input, limits, treeEnabled);
    TableOutweighs(reader.input, ReferenceStep(reader.input, limits, treeEnabled), limits.maxReferences, reader.at);
    var word := reader.ReadCount();
    if word.None? {
      return None, false, 0;
    }
    count := word.value.bits;
    if count > limits.maxReferences {
      reader.reason := CountLimit;
      return None, false, 0;
    }
    assert retain ==> count == table.Length;
    ghost var rows;
    rows, ok :=
      ScanReferenceRows(reader, ReferenceStep(reader.input, limits, treeEnabled), limits, treeEnabled, count, table,
                        retain);
    out := if ok then Some(Table(word.value, rows.value)) else None;
  }

  // ----- The whole tail -----

  method ScanUser(reader: Reader, limits: Limits) returns (out: Option<Span>)
    requires reader.Valid()
    modifies reader
    ensures reader.Valid() && reader.Ran(out, TakeUser(reader.input, limits, old(reader.at)))
  {
    out := reader.ReadString(limits.maxTerminated);
    if out.Some? && reader.at.position != reader.input.metadataEnd {
      reader.reason := NotExhausted;
      out := None;
    }
  }

  /** `scan_tail`, for measuring and for replay alike. */
  method ScanTail(reader: Reader, limits: Limits, treeEnabled: bool, tables: Tables)
    returns (ghost out: Option<Tail>, ok: bool, counts: Counts)
    requires reader.Valid() && tables.Fits(TakeTail(reader.input, limits, treeEnabled, reader.at))
    modifies reader, tables.scripts, tables.externals, tables.references
    ensures reader.Valid() && ok == out.Some?
      && reader.Ran(out, TakeTail(reader.input, limits, treeEnabled, old(reader.at)))
    ensures ok ==> counts == CountsOf(out.value)
    ensures ok && tables.retain ==> Holds(tables, out.value)
  {
    counts := Counts(0, 0, 0);
    PartsOfTail(reader.input, limits, treeEnabled, reader.at);
    ghost var scripts, externals, references;
    var scriptCount, externalCount, referenceCount;
    scripts, ok, scriptCount := ScanScripts(reader, limits, tables.scripts, tables.retain);
    if !ok {
      return None, false, counts;
    }
    externals, ok, externalCount := ScanExternals(reader, limits, tables.externals, tables.retain);
    if !ok {
      return None, false, counts;
    }
    references, ok, referenceCount := ScanReferences(reader, limits, treeEnabled, tables.references, tables.retain);
    if !ok {
      return None, false, counts;
    }
    var user := ScanUser(reader, limits);
    if user.None? {
      return None, false, counts;
    }
    counts := Counts(scriptCount, externalCount, referenceCount);
    out := Some(Tail(scripts.value, externals.value, references.value, user.value));
  }

  function CountsOf(tail: Tail): Counts {
    Counts(|tail.scripts.rows|, |tail.externals.rows|, |tail.references.rows|)
  }

  /** The tables hold exactly the rows of this tail. */
  ghost predicate Holds(tables: Tables, tail: Tail)
    reads tables.scripts, tables.externals, tables.references
  {
    && tables.scripts[..] == tail.scripts.rows && tables.externals[..] == tail.externals.rows
    && tables.references[..] == tail.references.rows
  }

  // ----- Two passes -----

  /** What creating a tail is given besides its input. */
  datatype Plan = Plan(limits: Limits, treeEnabled: bool, headerSize: nat, arrays: seq<Array>, maxRetained: nat,
                       maxWork: u64)

  predicate ValidPlan(plan: Plan) {
    |plan.arrays| == 3 && Aligned(plan.arrays)
  }

  function Retained(plan: Plan, counts: Counts): Option<nat>
    requires ValidPlan(plan)
  {
    PlanArrays(plan.headerSize, plan.arrays, [counts.scripts, counts.externals, counts.references])
  }

  /** The whole charge of a successful creation: both scans, the retained bytes, and one unit for admission,
      planning and completion each. */
  function TotalWork(start: At, end: At, retained: nat): int {
    2 * (Weight(end) - Weight(start)) + retained + 3
  }

  predicate CanCreate(plan: Plan, reply: Reply<Tail>, start: At, sameSource: bool, memory: bool)
    requires ValidPlan(plan)
  {
    && reply.Got? && sameSource && memory
    && var retained := Retained(plan, CountsOf(reply.value));
       retained.Some? && retained.value <= plan.maxRetained
         && TotalWork(start, reply.at, retained.value) <= plan.maxWork
  }

  /** The result is exactly the measured tail, at exactly the announced cost. */
  ghost predicate Created(plan: Plan, reply: Reply<Tail>, start: At, tables: Tables, work: nat)
    requires ValidPlan(plan) && reply.Got?
    reads tables.scripts, tables.externals, tables.references
  {
    && Holds(tables, reply.value)
    && var retained := Retained(plan, CountsOf(reply.value));
       retained.Some? && work == TotalWork(start, reply.at, retained.value)
  }

  /** Measure: the first pass and the storage plan. */
  method Measure(reader: Reader, plan: Plan) returns (failure: Option<Failure>, counts: Counts, retained: nat)
    requires reader.Valid() && ValidPlan(plan) && reader.maxWork == plan.maxWork
    modifies reader
    ensures reader.Valid() && old(reader.work) <= reader.work
    ensures var reply := TakeTail(reader.input, plan.limits, plan.treeEnabled, old(reader.at));
            && (failure.None? <==>
                  && reply.Got? && var r := Retained(plan, CountsOf(reply.value));
                     r.Some? && r.value <= plan.maxRetained
                     && old(reader.work) + Weight(reply.at) - Weight(old(reader.at)) + 1 + r.value <= plan.maxWork)
            && (failure.None? ==>
                  && counts == CountsOf(reply.value) && Retained(plan, counts) == Some(retained)
                  && reader.work == old(reader.work) + Weight(reply.at) - Weight(old(reader.at)) + 1 + retained)
            && (reply.Got? && failure.Some? ==> failure.value == RetainedLimit || failure.value == OutOfWork)
            && (failure.Some? && failure.value.ScanFailed? ==> reply == Refused(failure.value.reason))
  {
    ghost var start, before := reader.at, reader.work;
    retained := 0;
    var none := new Tables(false, Counts(0, 0, 0));
    ghost var view;
    var ok;
    view, ok, counts := ScanTail(reader, plan.limits, plan.treeEnabled, none);
    if !ok {
      return Some(if reader.reason == WorkLimit then OutOfWork else ScanFailed(reader.reason)), counts, 0;
    }
    if 1 > reader.maxWork - reader.work {
      return Some(OutOfWork), counts, 0;
    }
    reader.work := reader.work + 1;
    var size := Retained(plan, counts);
    if size.None? || size.value > plan.maxRetained {
      return Some(RetainedLimit), counts, 0;
    }
    retained := size.value;
    if retained > reader.maxWork - reader.work {
      return Some(OutOfWork), counts, retained;
    }
    reader.work := reader.work + retained;
    failure := None;
  }

  /** Replay the scan into the retained tables: only the work budget can stop it. */
  method Replay(reader: Reader, plan: Plan, start: At, tables: Tables) returns (ok: bool)
    requires reader.Valid() && tables.retain && reader.maxWork == plan.maxWork
    requires tables.Fits(TakeTail(reader.input, plan.limits, plan.treeEnabled, start))
    modifies reader, tables.scripts, tables.externals, tables.references
    ensures reader.Valid()
    ensures var reply := TakeTail(reader.input, plan.limits, plan.treeEnabled, start);
            && ok == (old(reader.work) + Weight(reply.at) - Weight(start) + 1 <= plan.maxWork)
            && (ok ==>
                reader.work == old(reader.work) + Weight(reply.at) - Weight(start) + 1
                && Holds(tables, reply.value))
            && (!ok ==> reader.reason == WorkLimit)
  {
    reader.at := start;
    ghost var view;
    var counts;
    view, ok, counts := ScanTail(reader, plan.limits, plan.treeEnabled, tables);
    if !ok {
      return;
    }
    if 1 > reader.maxWork - reader.work {
      reader.reason := WorkLimit;
      return false;
    }
    reader.work := reader.work + 1;
  }

  /** The announced cost in the terms of the design: twice the tail's bytes and rows, the retained bytes, and three. */
  lemma CostOfCreation(input: Input, plan: Plan, start: At, retained: nat)
    requires TakeTail(input, plan.limits, plan.treeEnabled, start).Got?
    ensures var r := TakeTail(input, plan.limits, plan.treeEnabled, start);
            TotalWork(start, r.at, retained)
            == 2 * ((input.metadataEnd - start.position) + |r.value.scripts.rows| + |r.value.externals.rows|
                    + |r.value.references.rows|) + retained + 3
  {
    TailTiles(input, plan.limits, plan.treeEnabled, start);
  }

  // ----- What is created, from the bytes alone -----

  /** The storage and twice the bytes and rows of a tail are within the plan. */
  predicate FitsPlan(plan: Plan, start: At, tail: Tail, end: At)
    requires ValidPlan(plan)
  {
    var rows := |tail.scripts.rows| + |tail.externals.rows| + |tail.references.rows|;
    var retained :=
      Retained(plan, Counts(|tail.scripts.rows|, |tail.externals.rows|, |tail.references.rows|));
    && retained.Some? && retained.value <= plan.maxRetained
    && 2 * ((end.position - start.position) + rows) + retained.value + 3 <= plan.maxWork
  }

  /** The bytes spell a tail within the limits, and it fits the plan. */
  ghost predicate Creatable(input: Input, plan: Plan, start: At)
    requires ValidPlan(plan)
  {
    exists tail: Tail, end: At {:trigger TailReads(input, plan.limits, plan.treeEnabled, start, tail, end)} ::
      TailReads(input, plan.limits, plan.treeEnabled, start, tail, end) && FitsPlan(plan, start, tail, end)
  }

  /** The tables hold the rows of a tail that the bytes spell. */
  ghost predicate SpelledTables(input: Input, plan: Plan, start: At, tables: Tables)
    reads tables.scripts, tables.externals, tables.references
  {
    exists tail: Tail, end: At {:trigger TailReads(input, plan.limits, plan.treeEnabled, start, tail, end)} ::
      && TailReads(input, plan.limits, plan.treeEnabled, start, tail, end)
      && tables.scripts[..] == tail.scripts.rows && tables.externals[..] == tail.externals.rows
      && tables.references[..] == tail.references.rows
  }

  lemma CreatableWhenSpelled(input: Input, plan: Plan, start: At)
    requires ValidPlan(plan)
    ensures CanCreate(plan, TakeTail(input, plan.limits, plan.treeEnabled, start), start, true, true)
            <==> Creatable(input, plan, start)
    ensures var r := TakeTail(input, plan.limits, plan.treeEnabled, start);
            r.Got? ==> TailReads(input, plan.limits, plan.treeEnabled, start, r.value, r.at)
  {
    var r := TakeTail(input, plan.limits, plan.treeEnabled, start);
    if r.Got? {
      TailReadsExactly(input, plan.limits, plan.treeEnabled, start, r.value, r.at);
      TailTiles(input, plan.limits, plan.treeEnabled, start);
    }
    forall tail: Tail, end: At | TailReads(input, plan.limits, plan.treeEnabled, start, tail, end)
      ensures r == Got(tail, end)
    {
      TailReadsExactly(input, plan.limits, plan.treeEnabled, start, tail, end);
    }
  }

  datatype Creation = Success | SourceMismatch | Failed(failure: Failure)

  /** Measure, allocate, replay. The replay either runs out of work or reproduces the measured tail. */
  method FillTables(input: Input, plan: Plan, start: At, sameSource: bool, memory: bool)
    returns (creation: Creation, tables: Tables, work: nat)
    requires ValidPlan(plan)
    ensures work <= plan.maxWork
    ensures creation.Success? <==>
      CanCreate(plan, TakeTail(input, plan.limits, plan.treeEnabled, start), start, sameSource, memory)
    ensures creation.Success? ==>
      Created(plan, TakeTail(input, plan.limits, plan.treeEnabled, start), start, tables, work)
    ensures creation.Failed? && creation.failure.ScanFailed? ==>
      TakeTail(input, plan.limits, plan.treeEnabled, start) == Refused(creation.failure.reason)
  {
    ghost var reply := TakeTail(input, plan.limits, plan.treeEnabled, start);
    assert reply.Got? ==> Weight(start) <= Weight(reply.at) by {
      if reply.Got? {
        TailTiles(input, plan.limits, plan.treeEnabled, start);
      }
    }
    tables := new Tables(false, Counts(0, 0, 0));
    if plan.maxWork < 1 {
      return Failed(OutOfWork), tables, 0;
    }
    var reader := new Reader(input, plan.maxWork, start, 1);
    if !sameSource {
      return SourceMismatch, tables, 1;
    }
    var failure, counts, retained := Measure(reader, plan);
    if failure.Some? {
      return Failed(failure.value), tables, reader.work;
    }
    if !memory {
      return Failed(OutOfMemory), tables, reader.work;
    }
    tables := new Tables(true, counts);
    var ok := Replay(reader, plan, start, tables);
    return if ok then Success else Failed(OutOfWork), tables, reader.work;
  }

  /** `serialized_file_metadata_tail_create`: the tables hold what the bytes spell. */
  method CreateTail(input: Input, plan: Plan, start: At, sameSource: bool, memory: bool)
    returns (creation: Creation, tables: Tables, work: nat)
    requires ValidPlan(plan)
    ensures work <= plan.maxWork
    ensures creation.Success? <==>
      CanCreate(plan, TakeTail(input, plan.limits, plan.treeEnabled, start), start, sameSource, memory)
    ensures creation.Success? ==>
      Created(plan, TakeTail(input, plan.limits, plan.treeEnabled, start), start, tables, work)
    ensures creation.Failed? && creation.failure.ScanFailed? ==>
      TakeTail(input, plan.limits, plan.treeEnabled, start) == Refused(creation.failure.reason)
    ensures creation.Success? <==> sameSource && memory && Creatable(input, plan, start)
    ensures creation.Success? ==> SpelledTables(input, plan, start, tables)
  {
    creation, tables, work := FillTables(input, plan, start, sameSource, memory);
    CreatableWhenSpelled(input, plan, start);
  }

  /** A directory scan followed by a tail scan covers the metadata from the end of the prefix to the metadata's
      own end without gap or overlap. */
  lemma MetadataIsCovered(input: Input, header: Directory.Header, limits: Directory.Limits, at: At, tailInput: Input,
                          tailLimits: Limits, treeEnabled: bool, tailAt: At)
    requires Directory.TakeDirectory(input, header, limits, at).Got?
    requires TakeTail(tailInput, tailLimits, treeEnabled, tailAt).Got?
    requires tailAt.position == Directory.TakeDirectory(input, header, limits, at).at.position
    ensures var d, t :=
      Directory.TakeDirectory(input, header, limits, at).value, TakeTail(tailInput, tailLimits, treeEnabled,
                                                                         tailAt).value;
            Tiles(Directory.TypesFields(d.types) + Directory.ObjectsFields(d.objects) + TailFields(t), at.position,
                  tailInput.metadataEnd)
  {
    var d, t :=
      Directory.TakeDirectory(input, header, limits, at), TakeTail(tailInput, tailLimits, treeEnabled, tailAt);
    Directory.DirectoryTiles(input, header, limits, at);
    TailTiles(tailInput, tailLimits, treeEnabled, tailAt);
    TilesJoin(Directory.TypesFields(d.value.types) + Directory.ObjectsFields(d.value.objects), TailFields(t.value),
              at.position, tailAt.position, tailInput.metadataEnd);
  }
}
