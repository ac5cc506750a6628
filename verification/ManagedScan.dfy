/** The managed-payload reader at work: one metered parse run twice, then the resolution of identifier
    slots (src/io/serialized_file_managed_values.c). */
module ManagedScan {
  import opened Bytes
  import Meta = MetadataReader
  import opened Managed
  import opened ManagedRows
  import opened ManagedPayload

  // ----- Retained tables -----

  /** The rows committed so far fit and are in the table. */
  ghost predicate Mirrored<T>(table: array<T>, rows: seq<T>)
    reads table
  {
    |rows| <= table.Length && table[..|rows|] == rows
  }

  lemma MirroredAll<T>(table: array<T>, rows: seq<T>)
    requires Mirrored(table, rows) && |rows| == table.Length
    ensures table[..] == rows
  {
  }

  method Store<T>(table: array<T>, row: T, ghost rows: seq<T>, i: nat)
    requires Mirrored(table, rows) && i == |rows| < table.Length
    modifies table
    ensures Mirrored(table, rows + [row])
  {
    table[i] := row;
  }

  /** The tables a replay fills; a measuring pass has none. */
  class Tables {
    const values: array<Meta.Row<Value>>
    const slots: array<Slot>
    const rows: array<RegistryRow>

    constructor (valueCount: nat, slotCount: nat, rowCount: nat)
      ensures fresh(values) && fresh(slots) && fresh(rows)
      ensures values.Length == valueCount && slots.Length == slotCount && rows.Length == rowCount
    {
      var span := Meta.Span(0, 0);
      values := new Meta.Row<Value>[valueCount](_ => Meta.Row(Scalar(0, None, 0, span, None), span));
      slots := new Slot[slotCount](_ => Slot(0, None, 0));
      rows := new RegistryRow[rowCount](_ => RegistryRow(NullRow, 0, Missing, 0, 0, 0, span, span));
    }

    ghost predicate Mirror(core: Core)
      reads values, slots, rows
    {
      Mirrored(values, core.values) && Mirrored(slots, core.slots) && Mirrored(rows, core.rows)
    }
  }

  function Lift(step: Step, cache: seq<nat>, selecting: nat): StateStep {
    match step
    case Stop(reason) => Halt(reason)
    case Next(core) => Proceed(State(core, cache, selecting))
  }

  // ----- Metered runs -----

  /** What limits a run: work, and on replay the sizes of the tables. */
  datatype Bounds = Bounds(maxWork: nat, replay: bool, values: nat, slots: nat, rows: nat)

  /** A replay has planned places for this much. */
  predicate Room(bounds: Bounds, core: Core) {
    bounds.replay ==> |core.values| <= bounds.values && |core.slots| <= bounds.slots && |core.rows| <= bounds.rows
  }

  /** Why a step may stop: for want of work, by its own reason, or because a replay outgrows its plan. */
  predicate Excused(bounds: Bounds, step: StateStep, reason: Reason) {
    || reason == WorkLimit || step == Halt(reason)
    || (bounds.replay && reason == InternalError && (step.Proceed? ==> !Room(bounds, step.state.core)))
  }

  /** From `start` with `charged` units spent, a step was run and left `now` with `work` units spent: it did
      what the function says, unless its charge does not fit or, on replay, what it commits. */
  predicate Run(bounds: Bounds, ok: bool, step: StateStep, start: State, charged: nat, now: State, work: nat,
                reason: Reason) {
    var run :=
      && charged <= work <= bounds.maxWork
      && ok == (step.Proceed? && charged + Weight(step.state) <= bounds.maxWork + Weight(start)
                && Room(bounds, step.state.core))
      && (ok ==> step == Proceed(now) && work == charged + Weight(now) - Weight(start))
      && (!ok ==> Excused(bounds, step, reason));
    run
  }

  /** A first step that stops stops the whole, and otherwise the whole goes on from it. */
  predicate Leads(first: StateStep, whole: StateStep) {
    var leads :=
      && (first.Halt? ==> whole == first)
      && (first.Proceed? && whole.Proceed? ==> StateBelow(first.state, whole.state));
    leads
  }

  lemma RunStops(bounds: Bounds, first: StateStep, whole: StateStep, start: State, charged: nat, now: State,
                 work: nat, reason: Reason)
    requires Run(bounds, false, first, start, charged, now, work, reason) && Leads(first, whole)
    ensures Run(bounds, false, whole, start, charged, now, work, reason)
  {
  }

  lemma RunGoesOn(bounds: Bounds, ok: bool, first: StateStep, whole: StateStep, start: State, charged: nat,
                  middle: State, spent: nat, cause: Reason, now: State, work: nat, reason: Reason)
    requires Run(bounds, true, first, start, charged, middle, spent, cause)
    requires Run(bounds, ok, whole, middle, spent, now, work, reason)
    ensures Run(bounds, ok, whole, start, charged, now, work, reason)
  {
  }

  lemma RunRefuses(bounds: Bounds, first: StateStep, whole: StateStep, start: State, charged: nat, middle: State,
                   spent: nat, cause: Reason)
    requires Run(bounds, true, first, start, charged, middle, spent, cause) && whole.Halt?
    ensures Run(bounds, false, whole, start, charged, middle, spent, whole.reason)
  {
  }

  /** A selection seen as a step. */
  lemma SelectionRuns(bounds: Bounds, env: Environment, ok: bool, start: State, ordinal: nat, charged: nat, now: State,
                      work: nat, reason: Reason, index: nat)
    requires Room(bounds, start.core) && charged <= work <= bounds.maxWork && (ok ==> now.core == start.core)
    requires var s := Select(env, bounds.replay, start.cache, ordinal);
             && ok == (s.Found? && charged + s.cost <= bounds.maxWork)
             && (ok ==>
                 s == Found(index, now.cache, s.cost) && work == charged + s.cost
                 && now.selecting == start.selecting + s.cost)
             && (!ok ==> reason == WorkLimit || s == Unselected(reason))
    ensures Run(bounds, ok, SelectStep(env, bounds.replay, start, ordinal), start, charged, now, work, reason)
  {
  }

  // ----- The build -----

  class Build {
    const env: Environment
    const maxWork: nat
    const tables: Tables
    const replay: bool
    const plan: Summary
    var core: Core
    var cache: seq<nat>
    ghost var selecting: nat
    var work: nat
    var reason: Reason

    ghost predicate Valid()
      reads this, tables.values, tables.slots, tables.rows
    {
      ValidEnvironment(env) && work <= maxWork && (replay ==> tables.Mirror(core))
    }

    ghost function Limits(): Bounds {
      Bounds(maxWork, replay, tables.values.Length, tables.slots.Length, tables.rows.Length)
    }

    ghost function Now(): State
      reads this
    {
      State(core, cache, selecting)
    }

    constructor (env: Environment, maxWork: nat, tables: Tables, replay: bool, plan: Summary, cache: seq<nat>,
                 work: nat)
      requires ValidEnvironment(env) && work <= maxWork
      ensures Valid() && this.env == env && this.maxWork == maxWork && this.tables == tables
      ensures this.replay == replay && this.plan == plan
      ensures Now() == State(InitialCore(env), cache, 0) && this.work == work
    {
      this.env, this.maxWork, this.tables, this.replay, this.plan := env, maxWork, tables, replay, plan;
      this.core, this.cache, this.selecting, this.work, this.reason := InitialCore(env), cache, 0, work, WorkLimit;
    }

    /** The step did what the function says, unless its charge does not fit or, on replay, what it commits. */
    twostate predicate Ran(ok: bool, step: StateStep)
      reads this
    {
      RanSince(ok, step, old(Now()), old(work))
    }

    ghost predicate RanSince(ok: bool, step: StateStep, start: State, charged: nat)
      reads this
    {
      Run(Limits(), ok, step, start, charged, Now(), work, reason)
    }

    /** The rest of the rows has stopped. */
    ghost predicate Stops(whole: StateStep, room: int)
      reads this
    {
      && (whole.Proceed? ==> Weight(whole.state) > room || !Room(Limits(), whole.state.core))
      && Excused(Limits(), whole, reason)
    }

    method Charge(amount: nat) returns (ok: bool)
      requires work <= maxWork
      modifies this`work, this`reason
      ensures ok == (old(work) + amount <= maxWork)
      ensures work == if ok then old(work) + amount else old(work)
      ensures !ok ==> reason == WorkLimit
    {
      if amount > maxWork - work {
        ok, reason := false, WorkLimit;
        return;
      }
      work := work + amount;
      ok := true;
    }

    /** `take_span`: the width and one unit. */
    method ReadSpan(width: nat) returns (span: Option<Meta.Span>)
      requires Valid()
      modifies this`core, this`work, this`reason
      ensures Valid() && cache == old(cache)
      ensures var r := TakeSpan(env, old(core), width);
              && span.Some? == (r.Got? && old(work) + width + 1 <= maxWork)
              && (span.Some? ==> r == Got(span.value, core) && work == old(work) + width + 1)
              && (span.None? ==> work == old(work) && (reason == WorkLimit || r == Refused(reason)))
    {
      if width > env.end - core.position {
        reason := Truncated;
        return None;
      }
      var ok := Charge(width + 1);
      if !ok {
        return None;
      }
      span := Some(Meta.Span(core.position, width));
      core := core.(position := core.position + width, spans := core.spans + 1);
    }

    method ReadPadding() returns (span: Option<Meta.Span>)
      requires Valid()
      modifies this`core, this`work, this`reason
      ensures Valid() && cache == old(cache)
      ensures var r := TakePadding(env, old(core));
              && span.Some? == (r.Got? && old(work) + r.value.size + 1 <= maxWork)
              && (span.Some? ==> r == Got(span.value, core) && work == old(work) + span.value.size + 1)
              && (span.None? ==> work == old(work) && (reason == WorkLimit || r == Refused(reason)))
    {
      var width := PaddingWidth(core.position);
      if core.padding + width > env.limits.maxPadding {
        reason := PaddingLimit;
        return None;
      }
      core := core.(padding := core.padding + width);
      span := ReadSpan(width);
    }

    /** `complete_value`: one unit, and the value's place in the table. */
    method CompleteValue(start: nat, value: Value) returns (ok: bool)
      requires Valid()
      modifies this`core, this`work, this`reason, tables.values
      ensures Valid() && cache == old(cache)
      ensures ok == (old(work) + 1 <= maxWork && (replay ==> |old(core).values| < tables.values.Length))
      ensures ok ==> core == Commit(old(core), start, value) && work == old(work) + 1
      ensures !ok ==> old(work) <= work
      ensures !ok ==> reason == if old(work) + 1 > maxWork then WorkLimit else InternalError
    {
      ok := Charge(1);
      if !ok {
        return;
      }
      var row := Meta.Row(value, Meta.Span(start, if core.position < start then 0 else core.position - start));
      if replay {
        if |core.values| >= tables.values.Length {
          ok, reason := false, InternalError;
          return;
        }
        Store(tables.values, row, core.values, |core.values|);
      }
      core := core.(values := core.values + [row]);
    }

    method ReadScalarValue(shapes: Shapes, node: nat) returns (ok: bool)
      requires Valid()
      modifies this, tables.values
      ensures Valid() && Ran(ok, Lift(ReadScalar(env, shapes, node, old(core)), old(cache), old(selecting)))
    {
      var shape, width := shapes(node), WidthOf(shapes(node).width);
      ghost var whole := ReadScalar(env, shapes, node, core);
      if |core.values| >= env.limits.maxValues {
        ok, reason := false, ValueLimit;
        return;
      }
      if width > env.limits.maxScalar {
        ok, reason := false, ScalarLimit;
        return;
      }
      if core.scalars + width > env.limits.maxScalars {
        ok, reason := false, TotalScalarLimit;
        return;
      }
      core := core.(scalars := core.scalars + width);
      assert whole == ReadScalarBody(env, shape, node, core);
      ok := ReadScalarRest(shape, node);
    }

    method ReadScalarRest(shape: NodeShape, node: nat) returns (ok: bool)
      requires Valid()
      modifies this, tables.values
      ensures Valid() && Ran(ok, Lift(ReadScalarBody(env, shape, node, old(core)), old(cache), old(selecting)))
    {
      var start := core.position;
      var scalar := ReadSpan(WidthOf(shape.width));
      if scalar.None? {
        return false;
      }
      var bits, alignment := RawBits(SpanBytes(env, scalar.value)), None;
      if shape.aligned {
        alignment := ReadPadding();
        if alignment.None? {
          return false;
        }
      }
      ok := CompleteValue(start, Scalar(node, core.row, bits, scalar.value, alignment));
    }

    method ReadTextValue(node: nat) returns (ok: bool)
      requires Valid()
      modifies this, tables.values
      ensures Valid() && Ran(ok, Lift(ReadText(env, node, old(core)), old(cache), old(selecting)))
    {
      var start := core.position;
      if |core.values| >= env.limits.maxValues {
        ok, reason := false, ValueLimit;
        return;
      }
      var length := ReadSpan(4);
      if length.None? {
        return false;
      }
      ok := ReadTextSized(node, start, length.value, Decode32(SpanBytes(env, length.value), false));
    }

    method ReadTextSized(node: nat, start: nat, length: Meta.Span, size: u32) returns (ok: bool)
      requires Valid()
      modifies this, tables.values
      ensures Valid() && Ran(ok,
                             Lift(ReadSizedText(env, node, start, length, size, old(core)), old(cache), old(selecting)))
    {
      ghost var whole := ReadSizedText(env, node, start, length, size, core);
      if size > INT_MAX {
        ok, reason := false, BadStringLength;
        return;
      }
      if size > env.limits.maxString {
        ok, reason := false, StringLimit;
        return;
      }
      if core.strings + size > env.limits.maxStrings {
        ok, reason := false, TotalStringLimit;
        return;
      }
      core := core.(strings := core.strings + size);
      assert whole == ReadTextBody(env, node, start, length, size, core);
      ok := ReadTextRest(node, start, length, size);
    }

    method ReadTextRest(node: nat, start: nat, length: Meta.Span, size: nat) returns (ok: bool)
      requires Valid()
      modifies this, tables.values
      ensures Valid() && Ran(ok,
                             Lift(ReadTextBody(env, node, start, length, size, old(core)), old(cache), old(selecting)))
    {
      var text := ReadSpan(size);
      if text.None? {
        return false;
      }
      var padding := ReadPadding();
      if padding.None? {
        return false;
      }
      ok := CompleteValue(start, Text(node, core.row, length, text.value, padding.value));
    }

    /** `read_rid_slot`: a scalar that is also a slot. */
    method ReadRidSlot(shapes: Shapes, node: nat) returns (ok: bool)
      requires Valid()
      modifies this, tables.values, tables.slots
      ensures Valid() && Ran(ok, Lift(ReadSlot(env, shapes, node, old(core)), old(cache), old(selecting)))
    {
      if |core.slots| >= env.limits.maxSlots {
        ok, reason := false, SlotLimit;
        return;
      }
      var ordinal, row := |core.values|, core.row;
      var bits;
      ok, bits := ReadBits(shapes, node);
      if ok {
        ok := CompleteSlot(ordinal, row, bits);
      }
    }

    method CompleteSlot(ordinal: nat, row: Option<nat>, bits: u64) returns (ok: bool)
      requires Valid() && core.values != [] && core.values[|core.values| - 1].value.Scalar? && bits == LastBits(core)
      modifies this`core, this`work, this`reason, tables.slots
      ensures Valid() && cache == old(cache)
      ensures ok == (old(work) + 1 <= maxWork && (replay ==> |old(core).slots| < tables.slots.Length))
      ensures ok ==> core == WithSlot(old(core), ordinal, row) && work == old(work) + 1
      ensures !ok ==> old(work) <= work
      ensures !ok ==> reason == if old(work) + 1 > maxWork then WorkLimit else InternalError
    {
      ok := Charge(1);
      if !ok {
        return;
      }
      var slot := Slot(ordinal, row, bits);
      if replay {
        if |core.slots| >= tables.slots.Length {
          ok, reason := false, InternalError;
          return;
        }
        Store(tables.slots, slot, core.slots, |core.slots|);
      }
      core := core.(slots := core.slots + [slot]);
    }

    method ReadFieldValue(shapes: Shapes, field: Field) returns (ok: bool)
      requires Valid()
      modifies this, tables.values, tables.slots
      ensures Valid() && Ran(ok, Lift(ReadField(env, shapes, field, old(core)), old(cache), old(selecting)))
    {
      match field
      case ScalarField(node) => ok := ReadScalarValue(shapes, node);
      case TextField(node) => ok := ReadTextValue(node);
      case RidField(node) => ok := ReadRidSlot(shapes, node);
    }

    /** A chain of fields that stops at the first failure. */
    method ReadFieldList(shapes: Shapes, fields: seq<Field>) returns (ok: bool)
      requires Valid()
      modifies this, tables.values, tables.slots
      ensures Valid() && Ran(ok, Lift(ReadFields(env, shapes, fields, old(core)), old(cache), old(selecting)))
      decreases fields
    {
      if fields == [] {
        return true;
      }
      FirstFieldWeighs(env, shapes, fields, core);
      ok := ReadFieldValue(shapes, fields[0]);
      if ok {
        ok := ReadFieldList(shapes, fields[1..]);
      }
    }

    method ReadCountValue(node: nat, maximum: nat, limit: Reason) returns (ok: bool, count: nat, ordinal: nat)
      requires Valid()
      modifies this, tables.values
      ensures Valid() && Ran(ok, LiftCount(ReadCount(env, node, maximum, limit, old(core)), old(cache), old(selecting)))
      ensures ok ==> ReadCount(env, node, maximum, limit, old(core)) == Counted(count, ordinal, core)
    {
      ghost var start, charged := Now(), work;
      ghost var first, whole := Lift(ReadScalar(env, env.host, node, core), cache, selecting),
                                LiftCount(ReadCount(env, node, maximum, limit, core), cache, selecting);
      CountFollows(env, node, maximum, limit, core, cache, selecting);
      count, ordinal := 0, |core.values|;
      var bits;
      ok, bits := ReadBits(env.host, node);
      if !ok {
        RunStops(Limits(), first, whole, start, charged, Now(), work, reason);
        return;
      }
      if bits > INT_MAX || bits > maximum {
        RunRefuses(Limits(), first, whole, start, charged, Now(), work, reason);
        ok, reason := false, if bits > INT_MAX then BadCount else limit;
        return;
      }
      count := bits;
    }

    /** A scalar and its raw bits. */
    method ReadBits(shapes: Shapes, node: nat) returns (ok: bool, bits: u64)
      requires Valid()
      modifies this, tables.values
      ensures Valid() && Ran(ok, Lift(ReadScalar(env, shapes, node, old(core)), old(cache), old(selecting)))
      ensures ok ==> core.values != [] && core.values[|core.values| - 1].value.Scalar? && bits == LastBits(core)
    {
      ghost var before := core;
      ok := ReadScalarValue(shapes, node);
      bits := 0;
      if ok {
        ScalarIsCommitted(env, shapes, node, before);
        bits := LastBits(core);
      }
    }

    // ----- Registry rows -----

    method ReadNameText(node: nat) returns (ok: bool, name: seq<byte>)
      requires Valid()
      modifies this, tables.values
      ensures Valid() && Ran(ok, LiftRead(ReadName(env, node, old(core)), old(cache), old(selecting)))
      ensures ok ==> ReadName(env, node, old(core)) == Got(name, core)
    {
      ghost var before := core;
      ok := ReadTextValue(node);
      name := [];
      if ok {
        TextIsCommitted(env, node, before);
        name := LastText(env, core);
      }
    }

    method ReadNameList(nodes: seq<nat>) returns (ok: bool, names: seq<seq<byte>>)
      requires Valid()
      modifies this, tables.values
      ensures Valid() && Ran(ok, LiftRead(ReadNames(env, nodes, old(core)), old(cache), old(selecting)))
      ensures ok ==> ReadNames(env, nodes, old(core)) == Got(names, core)
      decreases nodes
    {
      names := [];
      if nodes == [] {
        return true, [];
      }
      FirstNameWeighs(env, nodes, core);
      var name;
      ok, name := ReadNameText(nodes[0]);
      if ok {
        ok, names := ReadNameList(nodes[1..]);
        names := [name] + names;
      }
    }

    method ReadRowIdentity() returns (ok: bool, identity: Identity)
      requires Valid()
      modifies this, tables.values
      ensures Valid() && Ran(ok, LiftIdentity(ReadIdentity(env, old(core)), old(cache), old(selecting)))
      ensures ok ==> ReadIdentity(env, old(core)) == Identified(identity, core)
    {
      identity := Identity(0, []);
      ghost var start, charged := Now(), work;
      ghost var first, whole := Lift(ReadScalar(env, env.host, 31, core), cache, selecting),
                                LiftIdentity(ReadIdentity(env, core), cache, selecting);
      IdentityWeighs(env, core, cache, selecting);
      var rid, names;
      ok, rid := ReadBits(env.host, 31);
      if !ok {
        RunStops(Limits(), first, whole, start, charged, Now(), work, reason);
        return;
      }
      ghost var middle, spent, cause := Now(), work, reason;
      ok, names := ReadNameList(NAME_NODES);
      RunGoesOn(Limits(), ok, first, whole, start, charged, middle, spent, cause, Now(), work, reason);
      identity := Identity(rid, names);
    }

    /** `reject_terminator`: one unit for each length compared, and the length for each run of bytes. */
    method CompareToTerminator(names: seq<seq<byte>>, targets: seq<seq<byte>>) returns (ok: bool, same: bool)
      requires work <= maxWork && |names| == |targets|
      modifies this`work, this`reason
      ensures ok == (old(work) + CompareNames(names, targets).cost <= maxWork) && old(work) <= work <= maxWork
      ensures ok ==> same == CompareNames(names, targets).same && work == old(work) + CompareNames(names, targets).cost
      ensures !ok ==> reason == WorkLimit
      decreases names
    {
      same := true;
      if names == [] {
        return true, true;
      }
      ok := Charge(1);
      if !ok || |names[0]| != |targets[0]| {
        return ok, false;
      }
      ok := Charge(|targets[0]|);
      if !ok || names[0] != targets[0] {
        return ok, false;
      }
      ok, same := CompareToTerminator(names[1..], targets[1..]);
    }

    /** `select_schema`: one unit for each cached type compared, then the work of compiling a new one. */
    method SelectType(ordinal: nat) returns (ok: bool, index: nat)
      requires Valid()
      modifies this`work, this`reason, this`cache, this`selecting
      ensures Valid()
      ensures var s := Select(env, replay, old(cache), ordinal);
              && old(work) <= work <= maxWork
              && ok == (s.Found? && old(work) + s.cost <= maxWork)
              && (ok ==>
                  s == Found(index, cache, s.cost) && work == old(work) + s.cost
                  && selecting == old(selecting) + s.cost)
              && (!ok ==> reason == WorkLimit || s == Unselected(reason))
    {
      index := 0;
      while index < |cache|
        invariant index <= |cache| && cache == old(cache) && ordinal !in cache[..index]
        invariant work == old(work) + index && work <= maxWork && selecting == old(selecting) && Valid()
      {
        ok := Charge(1);
        if !ok {
          return;
        }
        if cache[index] == ordinal {
          FirstPlace(cache, ordinal, index);
          selecting := selecting + index + 1;
          return;
        }
        index := index + 1;
      }
      assert cache[..index] == cache;
      if replay {
        ok, reason := false, InternalError;
        return;
      }
      if |cache| >= env.limits.maxTypes {
        ok, reason := false, TypeLimit;
        return;
      }
      ok := CompileType(ordinal);
    }

    /** Compile and qualify a type not seen before; its place in the cache is the next one. */
    method CompileType(ordinal: nat) returns (ok: bool)
      requires Valid()
      modifies this`work, this`reason, this`cache, this`selecting
      ensures Valid() && old(work) <= work
      ensures var t := env.types(ordinal);
              var fits := t.Qualified? && Affords(old(cache), t.retained);
              && ok == (fits && old(work) + t.cost <= maxWork)
              && (ok ==> cache == old(cache) + [ordinal] && work == old(work) + t.cost
                         && selecting == old(selecting) + |old(cache)| + t.cost)
              && (!ok ==> reason == WorkLimit
                          || (!fits && reason == if t.Qualified? then PrerequisiteLimit else TypeRejected))
    {
      var t := env.types(ordinal);
      if t.Unqualified? {
        ok, reason := false, TypeRejected;
        return;
      }
      if t.retained > env.limits.maxPrerequisites - env.prerequisites - RetainedTypes(env, cache) {
        ok, reason := false, PrerequisiteLimit;
        return;
      }
      ok := Charge(t.cost);
      if ok {
        selecting := selecting + |cache| + t.cost;
        cache := cache + [ordinal];
      }
    }

    /** The bytes of one more type are within the limit. */
    predicate Affords(types: seq<nat>, retained: nat) {
      env.prerequisites + RetainedTypes(env, types) + retained <= env.limits.maxPrerequisites
    }

    /** The end of a row: one unit, and the row's place in the table. */
    method CompleteRow(ghost before: Core, ghost header: Core, start: nat, firstValue: nat, payloadStart: nat,
                       firstPayload: nat, kind: Kind, identity: Identity, found: Match) returns (ok: bool)
      requires Valid() && start == before.position && firstValue == |before.values|
      requires payloadStart == header.position && firstPayload == |header.values|
      modifies this`core, this`work, this`reason, tables.rows
      ensures Valid()
      ensures ok == (old(work) + 1 <= maxWork && (replay ==> |old(core).rows| < tables.rows.Length))
      ensures ok ==> core == FinishRow(before, header, old(core), kind, identity, found) && work == old(work) + 1
      ensures !ok ==> old(work) <= work
      ensures !ok ==> reason == if old(work) + 1 > maxWork then WorkLimit else InternalError
    {
      ok := Charge(1);
      if !ok {
        return;
      }
      var row := RegistryRow(kind, identity.rid, found, firstValue, firstPayload, |core.values|,
        Meta.Span(payloadStart, if core.position < payloadStart then 0 else core.position - payloadStart),
        Meta.Span(start, if core.position < start then 0 else core.position - start));
      if replay {
        if |core.rows| >= tables.rows.Length {
          ok, reason := false, InternalError;
          return;
        }
        Store(tables.rows, row, core.rows, |core.rows|);
      }
      core := core.(rows := core.rows + [row]);
    }

    /** Select a type, then read its payload. */
    method ReadSelectedRow(ghost before: Core, ghost header: Core, start: nat, firstValue: nat, payloadStart: nat,
                           firstPayload: nat, identity: Identity, ordinal: nat) returns (ok: bool)
      requires Valid() && start == before.position && firstValue == |before.values|
      requires payloadStart == header.position && firstPayload == |header.values|
      modifies this, tables.values, tables.slots, tables.rows
      ensures Valid() && Ran(ok, ReadSelected(env, replay, before, header, old(Now()), identity, ordinal))
    {
      ghost var from, charged := Now(), work;
      ghost var first, whole := SelectStep(env, replay, from, ordinal),
                                ReadSelected(env, replay, before, header, from, identity, ordinal);
      SelectedWeighs(env, replay, before, header, from, identity, ordinal);
      var index;
      ok, index := SelectType(ordinal);
      SelectionRuns(Limits(), env, ok, from, ordinal, charged, Now(), work, reason, index);
      if !ok {
        RunStops(Limits(), first, whole, from, charged, Now(), work, reason);
        return;
      }
      ghost var middle, spent, cause := Now(), work, reason;
      ok := ReadPayloadRow(before, header, start, firstValue, payloadStart, firstPayload, identity, ordinal, index);
      RunGoesOn(Limits(), ok, first, whole, from, charged, middle, spent, cause, Now(), work, reason);
    }

    /** The payload of a selected type, and the end of its row. */
    method ReadPayloadRow(ghost before: Core, ghost header: Core, start: nat, firstValue: nat, payloadStart: nat,
                          firstPayload: nat, identity: Identity, ordinal: nat, index: nat) returns (ok: bool)
      requires Valid() && start == before.position && firstValue == |before.values|
      requires payloadStart == header.position && firstPayload == |header.values|
      modifies this, tables.values, tables.slots, tables.rows
      ensures Valid()
      ensures Ran(ok, ReadSelectedPayload(env, before, header, old(Now()), identity, ordinal, index))
    {
      ghost var from, charged := Now(), work;
      ghost var whole := ReadSelectedPayload(env, before, header, from, identity, ordinal, index);
      PayloadRowWeighs(env, before, header, from, identity, ordinal, index);
      var t := env.types(ordinal);
      if t.Unqualified? {
        ok, reason := false, TypeRejected;
        return;
      }
      ghost var first := Lift(ReadFields(env, t.shapes, PayloadFields(t.isText), core), cache, selecting);
      ok := ReadFieldList(t.shapes, PayloadFields(t.isText));
      if !ok {
        RunStops(Limits(), first, whole, from, charged, Now(), work, reason);
        return;
      }
      ok := CompleteRow(before, header, start, firstValue, payloadStart, firstPayload, Payload(index), identity,
                        Unique(ordinal));
    }

    /** What follows a row's identity check. */
    method FinishRowCheck(ghost before: Core, ghost header: Core, start: nat, firstValue: nat, payloadStart: nat,
                          firstPayload: nat, identity: Identity, found: Match) returns (ok: bool)
      requires Valid() && start == before.position && firstValue == |before.values|
      requires payloadStart == header.position && firstPayload == |header.values|
      modifies this, tables.values, tables.slots, tables.rows
      ensures Valid() && Ran(ok, FinishCheck(env, replay, before, header, old(Now()), identity, found))
    {
      var decision := Decide(identity, found);
      if decision.Rejected? {
        ok, reason := false, decision.reason;
      } else if decision.Empty? {
        ok := CompleteRow(before, header, start, firstValue, payloadStart, firstPayload, NullRow, identity, found);
      } else {
        ok := ReadSelectedRow(before, header, start, firstValue, payloadStart, firstPayload, identity,
                              decision.ordinal);
      }
    }

    /** Compare with the terminator and ask the reference index: the work of both is charged. */
    method CheckIdentity(identity: Identity) returns (ok: bool, found: Match)
      requires Valid() && |identity.names| == 3
      modifies this`core, this`work, this`reason
      ensures Valid() && cache == old(cache) && old(work) <= work
      ensures var verdict, answer := CompareNames(identity.names, TerminatorNames()), env.query(identity.names);
              && ok == (!verdict.same && answer.Answer? && old(work) + verdict.cost + answer.cost <= maxWork)
              && (ok ==> found == answer.found && work == old(work) + verdict.cost + answer.cost)
              && (ok ==> State(core, cache, selecting) == Charged(old(Now()), old(core), identity, answer.cost))
              && (!ok ==> reason == WorkLimit || reason == if verdict.same then Terminator else QueryFailed)
              && (!ok && reason != WorkLimit ==> verdict.same || answer.QueryRefused?)
    {
      found := Missing;
      ghost var before := work;
      var same;
      ok, same := CompareToTerminator(identity.names, TerminatorNames());
      if !ok {
        return;
      }
      if same {
        ok, reason := false, Terminator;
        return;
      }
      var answer := env.query(identity.names);
      if answer.QueryRefused? {
        ok, reason := false, QueryFailed;
        return;
      }
      core := core.(extra := core.extra + CompareNames(identity.names, TerminatorNames()).cost + answer.cost);
      ok := Charge(answer.cost);
      found := answer.found;
    }

    /** `read_registry_row`. */
    method ReadRegistryRow() returns (ok: bool)
      requires Valid()
      modifies this, tables.values, tables.slots, tables.rows
      ensures Valid() && Ran(ok, ReadRow(env, replay, old(Now())))
    {
      ghost var start, charged, whole := Now(), work, ReadRow(env, replay, Now());
      RowWeighs(env, replay, start);
      core := core.(row := Some(|core.rows|));
      ghost var before, first := core, LiftIdentity(ReadIdentity(env, core), cache, selecting);
      var from, firstValue := core.position, |core.values|;
      var identity;
      ok, identity := ReadRowIdentity();
      if !ok {
        RunStops(Limits(), first, whole, start, charged, Now(), work, reason);
        return;
      }
      ghost var middle, spent, cause := Now(), work, reason;
      ok := ReadCheckedRow(before, from, firstValue, identity);
      RunGoesOn(Limits(), ok, first, whole, start, charged, middle, spent, cause, Now(), work, reason);
    }

    /** A row behind its identity. */
    method ReadCheckedRow(ghost before: Core, start: nat, firstValue: nat, identity: Identity) returns (ok: bool)
      requires Valid() && start == before.position && firstValue == |before.values| && |identity.names| == 3
      modifies this, tables.values, tables.slots, tables.rows
      ensures Valid() && Ran(ok, CheckRow(env, replay, before, old(core), old(Now()), identity))
    {
      ghost var header, here := core, Now();
      CheckedRowWeighs(env, replay, before, header, here, identity);
      var payloadStart, firstPayload := core.position, |core.values|;
      var found;
      ok, found := CheckIdentity(identity);
      if ok {
        ok := FinishRowCheck(before, header, start, firstValue, payloadStart, firstPayload, identity, found);
      }
    }

    /** One turn of the row loop. */
    method NextRow(ghost step: State -> StateStep, ghost whole: StateStep, ghost todo: nat, ghost room: int)
      returns (ok: bool)
      requires Valid() && todo > 0 && ReadsRows(step, env, replay) && Weighs(step)
      requires Going(step, whole, todo, Now(), maxWork - work, room)
      modifies this, tables.values, tables.slots, tables.rows
      ensures Valid() && old(work) <= work
      ensures ok ==> Going(step, whole, todo - 1, Now(), maxWork - work, room)
      ensures !ok ==> Stops(whole, room)
    {
      ghost var here, left := Now(), maxWork - work;
      assert IsRow(step, env, replay, here);
      GoOn(step, whole, todo, here, left, room);
      ok := ReadRegistryRow();
    }

    method ReadAllRows(count: nat, ghost step: State -> StateStep) returns (ok: bool)
      requires Valid() && ReadsRows(step, env, replay) && Weighs(step)
      modifies this, tables.values, tables.slots, tables.rows
      ensures Valid() && Ran(ok, Iterate(step, count, old(Now())))
    {
      ghost var whole, room, todo := Iterate(step, count, Now()), maxWork - work + Weight(Now()), count;
      for i := 0 to count
        invariant Valid() && old(work) <= work
        invariant todo == count - i && Going(step, whole, todo, Now(), maxWork - work, room)
      {
        ok := NextRow(step, whole, todo, room);
        if !ok {
          return;
        }
        todo := todo - 1;
      }
      ok := true;
    }

    /** The host object's own fields and its array of identifiers. */
    method ReadHostFields() returns (ok: bool, elements: nat, ordinal: nat)
      requires Valid()
      modifies this, tables.values, tables.slots
      ensures Valid() && Ran(ok, LiftCount(ReadHost(env, old(core)), old(cache), old(selecting)))
      ensures ok ==> ReadHost(env, old(core)) == Counted(elements, ordinal, core)
    {
      elements, ordinal := 0, 0;
      ghost var start, charged := Now(), work;
      ghost var first, whole := Lift(ReadFields(env, env.host, HostFields(), core), cache, selecting),
                                LiftCount(ReadHost(env, core), cache, selecting);
      HostWeighs(env, core, cache, selecting);
      ok := ReadFieldList(env.host, HostFields());
      if !ok {
        RunStops(Limits(), first, whole, start, charged, Now(), work, reason);
        return;
      }
      ghost var middle, spent, cause := Now(), work, reason;
      ok, elements, ordinal := ReadElements();
      RunGoesOn(Limits(), ok, first, whole, start, charged, middle, spent, cause, Now(), work, reason);
    }

    /** The element count and that many identifiers. */
    method ReadElements() returns (ok: bool, elements: nat, ordinal: nat)
      requires Valid()
      modifies this, tables.values, tables.slots
      ensures Valid() && Ran(ok, LiftCount(ReadHostArray(env, old(core)), old(cache), old(selecting)))
      ensures ok ==> ReadHostArray(env, old(core)) == Counted(elements, ordinal, core)
    {
      ghost var start, charged := Now(), work;
      ghost var count, whole := ReadCount(env, 22, env.limits.maxElements, ElementLimit, core),
                                LiftCount(ReadHostArray(env, core), cache, selecting);
      ghost var first := LiftCount(count, cache, selecting);
      ArrayWeighs(env, core, cache, selecting);
      ok, elements, ordinal := ReadCountValue(22, env.limits.maxElements, ElementLimit);
      if !ok {
        RunStops(Limits(), first, whole, start, charged, Now(), work, reason);
        return;
      }
      ghost var middle, spent, cause := Now(), work, reason;
      ok := ReadFieldList(env.host, Repeated(RidField(24), elements));
      RunGoesOn(Limits(), ok, first, whole, start, charged, middle, spent, cause, Now(), work, reason);
    }

    method ReadRegistryHead() returns (ok: bool, count: nat, ordinal: nat)
      requires Valid()
      modifies this, tables.values
      ensures Valid() && Ran(ok, LiftCount(ReadHead(env, old(core)), old(cache), old(selecting)))
      ensures ok ==> ReadHead(env, old(core)) == Counted(count, ordinal, core)
    {
      HeadWeighs(env, core);
      count, ordinal := 0, 0;
      var version;
      ok, version := ReadBits(env.host, 26);
      if !ok {
        return;
      }
      if version != REGISTRY_VERSION {
        ok, reason := false, BadVersion;
        return;
      }
      ok, count, ordinal := ReadCountValue(29, env.limits.maxRows, RowLimit);
    }

    method ReadRegistry(elements: nat, elementsValue: nat) returns (ok: bool, view: View)
      requires Valid()
      modifies this, tables.values, tables.slots, tables.rows
      ensures Valid() && Ran(ok, LiftParse(ParseRegistry(env, replay, elements, elementsValue, old(Now()))))
      ensures ok ==> ParseRegistry(env, replay, elements, elementsValue, old(Now())) == Parsed(view, Now())
    {
      ghost var start, charged, parse := Now(), work, ParseRegistry(env, replay, elements, elementsValue, Now());
      ghost var first, whole := LiftCount(ReadHead(env, core), cache, selecting), LiftParse(parse);
      RegistryWeighs(env, replay, elements, elementsValue, start);
      view := View(elements, elementsValue, core.position, |core.values|, 0, 0);
      var rowCount, rowCountValue;
      ok, rowCount, rowCountValue := ReadRegistryHead();
      if !ok {
        RunStops(Limits(), first, whole, start, charged, Now(), work, reason);
        return;
      }
      view := view.(rowCount := rowCount, rowCountValue := rowCountValue);
      assert parse == ParseRows(env, replay, view, Now());
      ghost var middle, spent, cause := Now(), work, reason;
      ok := ReadRowsToEnd(view);
      RunGoesOn(Limits(), ok, first, whole, start, charged, middle, spent, cause, Now(), work, reason);
    }

    method ReadRowsToEnd(view: View) returns (ok: bool)
      requires Valid()
      modifies this, tables.values, tables.slots, tables.rows
      ensures Valid() && Ran(ok, LiftParse(ParseRows(env, replay, view, old(Now()))))
      ensures ok ==> ParseRows(env, replay, view, old(Now())) == Parsed(view, Now())
    {
      RowsWeighAlways(env, replay);
      ok := ReadAllRows(view.rowCount, RowStep(env, replay));
      if ok && core.position != env.end {
        ok, reason := false, TrailingBytes;
      }
    }

    /** Host fields, registry and rows. */
    method ReadToEnd() returns (ok: bool, view: View)
      requires Valid()
      modifies this, tables.values, tables.slots, tables.rows
      ensures Valid() && Ran(ok, LiftParse(ParsePayload(env, replay, old(Now()))))
      ensures ok ==> ParsePayload(env, replay, old(Now())) == Parsed(view, Now())
    {
      ghost var start, charged, parse := Now(), work, ParsePayload(env, replay, Now());
      ghost var first, whole := LiftCount(ReadHost(env, core), cache, selecting), LiftParse(parse);
      PayloadWeighs(env, replay, start);
      view := View(0, 0, 0, 0, 0, 0);
      var elements, elementsValue;
      ok, elements, elementsValue := ReadHostFields();
      if !ok {
        RunStops(Limits(), first, whole, start, charged, Now(), work, reason);
        return;
      }
      assert parse == ParseRegistry(env, replay, elements, elementsValue, Now());
      ghost var middle, spent, cause := Now(), work, reason;
      ok, view := ReadRegistry(elements, elementsValue);
      RunGoesOn(Limits(), ok, first, whole, start, charged, middle, spent, cause, Now(), work, reason);
    }

    /** A replay must fit its tables and reproduce its plan. */
    ghost predicate AsPlanned(parse: Parse) {
      replay && parse.Parsed? ==> Room(Limits(), parse.state.core) && SummaryOf(parse.view, parse.state) == plan
    }

    /** `parse_payload`, for measuring and for replay alike, with the comparison that ends a replay. */
    method ReadPayload() returns (ok: bool, view: View)
      requires Valid()
      modifies this, tables.values, tables.slots, tables.rows
      ensures Valid() && old(work) <= work
      ensures var p := ParsePayload(env, replay, old(Now()));
              && ok == (p.Parsed? && AsPlanned(p) && old(work) + Weight(p.state) <= maxWork + Weight(old(Now())))
              && (ok ==> p == Parsed(view, Now()) && work == old(work) + Weight(Now()) - Weight(old(Now())))
              && (!ok ==>
                  reason == WorkLimit || p == Unparsed(reason)
                  || (reason == InternalError && replay && (p.Parsed? ==> !AsPlanned(p))))
    {
      ok, view := ReadToEnd();
      if ok && replay && SummaryOf(view, State(core, cache, 0)) != plan {
        ok, reason := false, InternalError;
      }
    }
  }

  function LiftCount(step: CountStep, cache: seq<nat>, selecting: nat): StateStep {
    match step
    case Uncounted(reason) => Halt(reason)
    case Counted(_, _, core) => Proceed(State(core, cache, selecting))
  }

  lemma ScalarWeighs(env: Environment, shapes: Shapes, node: nat, core: Core)
    requires ValidEnvironment(env)
    ensures var r := ReadScalar(env, shapes, node, core); r.Next? ==> Below(core, r.core)
  {
  }

  lemma TextWeighs(env: Environment, node: nat, core: Core)
    requires ValidEnvironment(env)
    ensures var r := ReadText(env, node, core); r.Next? ==> Below(core, r.core)
  {
  }

  lemma FieldWeighs(env: Environment, shapes: Shapes, field: Field, core: Core)
    requires ValidEnvironment(env)
    ensures var r := ReadField(env, shapes, field, core); r.Next? ==> Below(core, r.core)
  {
    match field
    case ScalarField(node) => ScalarWeighs(env, shapes, node, core);
    case TextField(node) => TextWeighs(env, node, core);
    case RidField(node) => ScalarWeighs(env, shapes, node, core);
  }

  lemma {:induction false} FieldsWeigh(env: Environment, shapes: Shapes, fields: seq<Field>, core: Core)
    requires ValidEnvironment(env)
    ensures var r := ReadFields(env, shapes, fields, core); r.Next? ==> Below(core, r.core)
    decreases fields
  {
    if fields != [] {
      FieldWeighs(env, shapes, fields[0], core);
      var step := ReadField(env, shapes, fields[0], core);
      if step.Next? {
        FieldsWeigh(env, shapes, fields[1..], step.core);
      }
    }
  }

  lemma FirstFieldWeighs(env: Environment, shapes: Shapes, fields: seq<Field>, core: Core)
    requires ValidEnvironment(env) && fields != []
    ensures var first, all := ReadField(env, shapes, fields[0], core), ReadFields(env, shapes, fields, core);
            all.Next? ==> first.Next? && Below(first.core, all.core)
  {
    var step := ReadField(env, shapes, fields[0], core);
    if step.Next? {
      FieldsWeigh(env, shapes, fields[1..], step.core);
    }
  }

  function LiftRead<T>(read: Read<T>, cache: seq<nat>, selecting: nat): StateStep {
    match read
    case Refused(reason) => Halt(reason)
    case Got(_, core) => Proceed(State(core, cache, selecting))
  }

  function LiftIdentity(step: IdentityStep, cache: seq<nat>, selecting: nat): StateStep {
    match step
    case Unidentified(reason) => Halt(reason)
    case Identified(_, core) => Proceed(State(core, cache, selecting))
  }

  lemma {:induction false} NamesWeigh(env: Environment, nodes: seq<nat>, core: Core)
    requires ValidEnvironment(env)
    ensures var r := ReadNames(env, nodes, core); r.Got? ==> Below(core, r.core)
    decreases nodes
  {
    if nodes != [] {
      TextWeighs(env, nodes[0], core);
      var step := ReadName(env, nodes[0], core);
      if step.Got? {
        NamesWeigh(env, nodes[1..], step.core);
      }
    }
  }

  lemma FirstNameWeighs(env: Environment, nodes: seq<nat>, core: Core)
    requires ValidEnvironment(env) && nodes != []
    ensures var first, all := ReadName(env, nodes[0], core), ReadNames(env, nodes, core);
            all.Got? ==> first.Got? && Below(first.core, all.core)
  {
    var step := ReadName(env, nodes[0], core);
    if step.Got? {
      NamesWeigh(env, nodes[1..], step.core);
    }
  }

  lemma IdentityWeighs(env: Environment, core: Core, cache: seq<nat>, selecting: nat)
    requires ValidEnvironment(env)
    ensures var first, whole :=
      ReadScalar(env, env.host, 31, core), LiftIdentity(ReadIdentity(env, core), cache, selecting);
            && Leads(Lift(first, cache, selecting), whole)
            && (first.Next? ==> whole == LiftRead(ReadNames(env, NAME_NODES, first.core), cache, selecting))
            && (whole.Proceed? ==> Below(core, whole.state.core))
  {
    ScalarWeighs(env, env.host, 31, core);
    var step := ReadScalar(env, env.host, 31, core);
    if step.Next? {
      NamesWeigh(env, NAME_NODES, step.core);
    }
  }

  lemma {:induction false} FirstPlace(cache: seq<nat>, ordinal: nat, index: nat)
    requires index < |cache| && cache[index] == ordinal && ordinal !in cache[..index]
    ensures IndexOf(cache, ordinal) == Some(index)
  {
    if index > 0 {
      assert cache[..index][0] == cache[0];
      assert cache[1..][..index - 1] == cache[..index][1..];
      FirstPlace(cache[1..], ordinal, index - 1);
    }
  }

  lemma PayloadRowWeighs(env: Environment, before: Core, header: Core, state: State, identity: Identity, ordinal: nat,
                         index: nat)
    requires ValidEnvironment(env)
    ensures var t, whole :=
      env.types(ordinal), ReadSelectedPayload(env, before, header, state, identity, ordinal, index);
            && (t.Qualified? ==>
                  Leads(Lift(ReadFields(env, t.shapes, PayloadFields(t.isText), state.core), state.cache,
                             state.selecting), whole))
            && (whole.Proceed? ==> StateBelow(state, whole.state))
  {
    var t := env.types(ordinal);
    if t.Qualified? {
      FieldsWeigh(env, t.shapes, PayloadFields(t.isText), state.core);
    }
  }

  /** Selecting a type and reading its payload weigh no more than the row they belong to. */
  lemma SelectedWeighs(env: Environment, replay: bool, before: Core, header: Core, state: State, identity: Identity,
                       ordinal: nat)
    requires ValidEnvironment(env)
    ensures var first, whole := SelectStep(env, replay, state, ordinal),
                                ReadSelected(env, replay, before, header, state, identity, ordinal);
            Leads(first, whole) && (whole.Proceed? ==> StateBelow(state, whole.state))
  {
    var s := Select(env, replay, state.cache, ordinal);
    if s.Found? {
      PayloadRowWeighs(env, before, header, State(state.core, s.cache, state.selecting + s.cost), identity, ordinal,
                       s.index);
    }
  }

  lemma CheckWeighs(env: Environment, replay: bool, before: Core, header: Core, state: State, identity: Identity,
                    found: Match)
    requires ValidEnvironment(env)
    ensures var r := FinishCheck(env, replay, before, header, state, identity, found);
      r.Proceed? ==> StateBelow(state, r.state)
  {
    var decision := Decide(identity, found);
    if decision.Wanted? {
      SelectedWeighs(env, replay, before, header, state, identity, decision.ordinal);
    }
  }

  /** A row's identity check weighs no more than the row. */
  lemma CheckedRowWeighs(env: Environment, replay: bool, before: Core, header: Core, state: State, identity: Identity)
    requires ValidEnvironment(env) && |identity.names| == 3 && state.core == header
    ensures var whole, answer := CheckRow(env, replay, before, header, state, identity), env.query(identity.names);
            whole.Proceed? ==>
              answer.Answer? && StateBelow(Charged(state, header, identity, answer.cost), whole.state)
              && StateBelow(state, whole.state)
  {
    var answer := env.query(identity.names);
    if answer.Answer? {
      CheckWeighs(env, replay, before, header, Charged(state, header, identity, answer.cost), identity, answer.found);
    }
  }

  /** A row's identity leads to the row. */
  lemma RowWeighs(env: Environment, replay: bool, state: State)
    requires ValidEnvironment(env)
    ensures var before := state.core.(row := Some(|state.core.rows|));
            var whole, id := ReadRow(env, replay, state), ReadIdentity(env, before);
            && Leads(LiftIdentity(id, state.cache, state.selecting), whole)
            && (id.Identified? ==>
                  whole == CheckRow(env, replay, before, id.core, state.(core := id.core), id.identity))
            && (whole.Proceed? ==> StateBelow(state, whole.state))
  {
    var before := state.core.(row := Some(|state.core.rows|));
    IdentityWeighs(env, before, state.cache, state.selecting);
    var id := ReadIdentity(env, before);
    if id.Identified? {
      CheckedRowWeighs(env, replay, before, id.core, state.(core := id.core), id.identity);
    }
  }

  // ----- The row loop -----

  ghost predicate IsRow(step: State -> StateStep, env: Environment, replay: bool, state: State)
    requires ValidEnvironment(env)
  {
    step(state) == ReadRow(env, replay, state)
  }

  /** `step` reads registry rows. */
  ghost predicate ReadsRows(step: State -> StateStep, env: Environment, replay: bool)
    requires ValidEnvironment(env)
  {
    forall s: State {:trigger IsRow(step, env, replay, s)} :: IsRow(step, env, replay, s)
  }

  ghost predicate Weighs(step: State -> StateStep) {
    forall s: State {:trigger step(s)} :: step(s).Proceed? ==> StateBelow(s, step(s).state)
  }

  /** The rest of the rows leads to the whole, and `room` is the weight the budget still allows. */
  ghost predicate Going(step: State -> StateStep, whole: StateStep, todo: nat, now: State, left: int, room: int) {
    var going := whole == Iterate(step, todo, now) && 0 <= left == room - Weight(now);
    going
  }

  lemma {:induction false} IterationWeighs(step: State -> StateStep, count: nat, state: State)
    requires Weighs(step) && Iterate(step, count, state).Proceed?
    ensures StateBelow(state, Iterate(step, count, state).state)
    decreases count
  {
    if count > 0 {
      IterationWeighs(step, count - 1, step(state).state);
    }
  }

  lemma GoOn(step: State -> StateStep, whole: StateStep, todo: nat, now: State, left: int, room: int)
    requires Going(step, whole, todo, now, left, room) && todo > 0 && Weighs(step)
    ensures step(now).Proceed? ==> whole == Iterate(step, todo - 1, step(now).state)
    ensures step(now).Proceed? && whole.Proceed? ==> StateBelow(step(now).state, whole.state)
    ensures step(now).Halt? ==> whole == Halt(step(now).reason)
  {
    if step(now).Proceed? && whole.Proceed? {
      IterationWeighs(step, todo - 1, step(now).state);
    }
  }

  lemma RowsWeighAlways(env: Environment, replay: bool)
    requires ValidEnvironment(env)
    ensures ReadsRows(RowStep(env, replay), env, replay) && Weighs(RowStep(env, replay))
  {
    forall s: State | RowStep(env, replay)(s).Proceed? ensures StateBelow(s, RowStep(env, replay)(s).state) {
      RowWeighs(env, replay, s);
    }
  }

  // ----- The parts of a payload against the whole -----

  /** A count is a scalar that may still be refused. */
  lemma CountFollows(env: Environment, node: nat, maximum: nat, limit: Reason, core: Core, cache: seq<nat>,
                     selecting: nat)
    requires ValidEnvironment(env)
    ensures var scalar, count := ReadScalar(env, env.host, node, core), ReadCount(env, node, maximum, limit, core);
            var first, whole := Lift(scalar, cache, selecting), LiftCount(count, cache, selecting);
            && Leads(first, whole)
            && (scalar.Next? ==>
                  && scalar.core.values != [] && scalar.core.values[|scalar.core.values| - 1].value.Scalar?
                  && var bits := LastBits(scalar.core);
                     if bits > INT_MAX then whole == Halt(BadCount) else if bits > maximum then whole == Halt(limit)
                     else whole == first && count == Counted(bits, |core.values|, scalar.core))
  {
    if ReadScalar(env, env.host, node, core).Next? {
      ScalarIsCommitted(env, env.host, node, core);
    }
  }

  lemma CountWeighs(env: Environment, node: nat, maximum: nat, limit: Reason, core: Core)
    requires ValidEnvironment(env)
    ensures var r := ReadCount(env, node, maximum, limit, core); r.Counted? ==> Below(core, r.core)
  {
    ScalarWeighs(env, env.host, node, core);
  }

  lemma ArrayWeighs(env: Environment, core: Core, cache: seq<nat>, selecting: nat)
    requires ValidEnvironment(env)
    ensures var count := ReadCount(env, 22, env.limits.maxElements, ElementLimit, core);
            var whole := LiftCount(ReadHostArray(env, core), cache, selecting);
            && Leads(LiftCount(count, cache, selecting), whole)
            && (count.Counted? ==>
                  whole == Lift(ReadFields(env, env.host, Repeated(RidField(24), count.count), count.core), cache,
                                selecting))
            && (whole.Proceed? ==> Below(core, whole.state.core))
  {
    CountWeighs(env, 22, env.limits.maxElements, ElementLimit, core);
    var count := ReadCount(env, 22, env.limits.maxElements, ElementLimit, core);
    if count.Counted? {
      FieldsWeigh(env, env.host, Repeated(RidField(24), count.count), count.core);
    }
  }

  lemma HostWeighs(env: Environment, core: Core, cache: seq<nat>, selecting: nat)
    requires ValidEnvironment(env)
    ensures var fields, whole :=
      ReadFields(env, env.host, HostFields(), core), LiftCount(ReadHost(env, core), cache, selecting);
            && Leads(Lift(fields, cache, selecting), whole)
            && (fields.Next? ==> whole == LiftCount(ReadHostArray(env, fields.core), cache, selecting))
            && (whole.Proceed? ==> Below(core, whole.state.core))
  {
    FieldsWeigh(env, env.host, HostFields(), core);
    var fields := ReadFields(env, env.host, HostFields(), core);
    if fields.Next? {
      ArrayWeighs(env, fields.core, cache, selecting);
    }
  }

  lemma HeadWeighs(env: Environment, core: Core)
    requires ValidEnvironment(env)
    ensures var head, version := ReadHead(env, core), ReadScalar(env, env.host, 26, core);
            head.Counted? ==>
              Below(core, head.core) && version.Next? && Below(version.core, head.core)
  {
    ScalarWeighs(env, env.host, 26, core);
    var version := ReadScalar(env, env.host, 26, core);
    if version.Next? {
      CountWeighs(env, 29, env.limits.maxRows, RowLimit, version.core);
    }
  }

  function LiftParse(parse: Parse): StateStep {
    match parse
    case Unparsed(reason) => Halt(reason)
    case Parsed(_, state) => Proceed(state)
  }

  /** The rest of a registry behind its head. */
  function AfterHead(env: Environment, replay: bool, elements: nat, elementsValue: nat, state: State,
                     head: CountStep): Parse
    requires ValidEnvironment(env) && head.Counted?
  {
    ParseRows(env, replay,
              View(elements, elementsValue, state.core.position, |state.core.values|, head.count, head.ordinal),
              state.(core := head.core))
  }

  lemma RegistryWeighs(env: Environment, replay: bool, elements: nat, elementsValue: nat, state: State)
    requires ValidEnvironment(env)
    ensures var whole, head := ParseRegistry(env, replay, elements, elementsValue, state), ReadHead(env, state.core);
            && Leads(LiftCount(head, state.cache, state.selecting), LiftParse(whole))
            && (head.Counted? ==> whole == AfterHead(env, replay, elements, elementsValue, state, head))
            && (whole.Parsed? ==> StateBelow(state, whole.state))
  {
    if ParseRegistry(env, replay, elements, elementsValue, state).Parsed? {
      HeadWeighs(env, state.core);
      var head := ReadHead(env, state.core);
      RowsWeighAlways(env, replay);
      IterationWeighs(RowStep(env, replay), head.count, state.(core := head.core));
    }
  }

  lemma PayloadWeighs(env: Environment, replay: bool, state: State)
    requires ValidEnvironment(env)
    ensures var whole, host := ParsePayload(env, replay, state), ReadHost(env, state.core);
            && Leads(LiftCount(host, state.cache, state.selecting), LiftParse(whole))
            && (host.Counted? ==>
                whole == ParseRegistry(env, replay, host.count, host.ordinal, state.(core := host.core)))
            && (whole.Parsed? ==> StateBelow(state, whole.state))
  {
    HostWeighs(env, state.core, state.cache, state.selecting);
    var host := ReadHost(env, state.core);
    if host.Counted? {
      RegistryWeighs(env, replay, host.count, host.ordinal, state.(core := host.core));
    }
  }
}
