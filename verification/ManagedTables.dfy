/** What the retained tables of a managed payload say about its bytes, value by value, slot by slot and row by row
    (src/io/serialized_file_managed_values.c). */
module ManagedTables {
  import opened Bytes
  import Meta = MetadataReader
  import opened Managed
  import opened ManagedRows
  import opened ManagedPayload
  import opened ManagedWire
  import opened ManagedPayloadWire

  /** A scalar has the number that its bytes spell, and a text the length that its first four bytes spell. */
  predicate ValueFits(env: Environment, row: Meta.Row<Value>) {
    match row.value
    case Scalar(_, _, _, scalar, alignment) =>
      && (scalar.size == 1 || scalar.size == 4 || scalar.size == 8)
      && ScalarSpelled(env.bytes, row.value, scalar.offset, scalar.size)
      && (alignment.Some? ==>
            && alignment.value.offset == scalar.offset + scalar.size
            && PaddingFits(alignment.value.offset, alignment.value.size))
      && row.source == Meta.Span(scalar.offset, scalar.size + if alignment.Some? then alignment.value.size else 0)
    case Text(_, _, length, text, padding) =>
      && TextSpelled(env.bytes, row.value, length.offset)
      && row.source == Meta.Span(length.offset, 4 + text.size + padding.size)
  }

  /** A slot has the number and the row of the scalar at its ordinal. */
  predicate SlotFits(values: seq<Meta.Row<Value>>, slot: Slot) {
    && slot.valueOrdinal < |values|
    && var v := values[slot.valueOrdinal].value; v.Scalar? && slot.bits == v.bits && slot.row == v.row
  }

  /** A row starts with its identifier and three names, which the index was asked for. It is the null row exactly when
      the identifier is -2, the names are empty and the index misses them; any other has a qualified type. */
  predicate RowFits(env: Environment, values: seq<Meta.Row<Value>>, row: RegistryRow) {
    var k := row.firstValue;
    var fits :=
      && k + 4 == row.firstPayload <= row.valueEnd <= |values|
      && values[k].value.Scalar? && row.ridBits == values[k].value.bits
      && var names := Texts(env, values[k + 1..k + 4]);
         && names != TerminatorBytes() && env.query(names).Answer? && row.found == env.query(names).found
         && (row.kind == NullRow <==>
               row.ridBits == 0xFFFF_FFFF_FFFF_FFFE && names == [[], [], []] && row.found.Missing?)
         && (row.kind.Payload? ==> row.found.Unique? && env.types(row.found.ordinal).Qualified?);
    fits
  }

  ghost predicate TablesFit(env: Environment, values: seq<Meta.Row<Value>>, slots: seq<Slot>, rows: seq<RegistryRow>) {
    && (forall i {:trigger values[i]} :: 0 <= i < |values| ==> ValueFits(env, values[i]))
    && (forall i {:trigger slots[i]} :: 0 <= i < |slots| ==> SlotFits(values, slots[i]))
    && (forall i {:trigger rows[i]} :: 0 <= i < |rows| ==> RowFits(env, values, rows[i]))
  }

  predicate HasBits(values: seq<Meta.Row<Value>>, i: nat, node: nat, bits: nat) {
    i < |values| && values[i].value.Scalar? && values[i].value.node == node && values[i].value.bits == bits
  }

  /** The view's numbers are those of its values: the elements, version 2, and the rows. */
  predicate ViewFits(view: View, values: seq<Meta.Row<Value>>, rows: seq<RegistryRow>) {
    && HasBits(values, view.elementsValue, 22, view.elements) && HasBits(values, view.versionValue, 26, 2)
    && HasBits(values, view.rowCountValue, 29, view.rowCount) && view.rowCount == |rows|
    && view.elementsValue == 9 && view.versionValue == 10 + view.elements
    && view.rowCountValue == view.versionValue + 1
    && values[view.versionValue].source.offset == view.registryStart
  }

  // ----- Every step keeps it -----

  lemma FieldKeeps(env: Environment, shapes: Shapes, field: Field, at: Core, next: Core)
    requires FieldReads(env, shapes, field, at, next) && TablesFit(env, at.values, at.slots, at.rows)
    ensures TablesFit(env, next.values, next.slots, next.rows)
  {
    var added := next.values[|at.values|];
    assert next.values == at.values + [added];
    assert ValueFits(env, added);
    ValuesAppended(env, at.values, at.slots, at.rows, added);
  }

  lemma ValuesAppended(env: Environment, values: seq<Meta.Row<Value>>, slots: seq<Slot>, rows: seq<RegistryRow>,
                       added: Meta.Row<Value>)
    requires TablesFit(env, values, slots, rows) && ValueFits(env, added)
    ensures TablesFit(env, values + [added], slots, rows)
  {
    forall i | 0 <= i < |rows| ensures RowFits(env, values + [added], rows[i]) {
      RowStays(env, values, added, rows[i]);
    }
    forall i | 0 <= i < |slots| ensures SlotFits(values + [added], slots[i]) {
      SlotStays(values, added, slots[i]);
    }
  }

  lemma RowStays(env: Environment, values: seq<Meta.Row<Value>>, added: Meta.Row<Value>, row: RegistryRow)
    requires RowFits(env, values, row)
    ensures RowFits(env, values + [added], row)
  {
    var k := row.firstValue;
    assert (values + [added])[k + 1..k + 4] == values[k + 1..k + 4];
  }

  lemma SlotStays(values: seq<Meta.Row<Value>>, added: Meta.Row<Value>, slot: Slot)
    requires SlotFits(values, slot)
    ensures SlotFits(values + [added], slot)
  {
  }

  lemma {:induction false} FieldsKeep(env: Environment, shapes: Shapes, fields: seq<Field>, at: Core, next: Core)
    requires FieldsRead(env, shapes, fields, at, next) && TablesFit(env, at.values, at.slots, at.rows)
    ensures TablesFit(env, next.values, next.slots, next.rows)
    decreases |fields|
  {
    if fields != [] {
      var m: Core :| FieldReads(env, shapes, fields[0], at, m) && FieldsRead(env, shapes, fields[1..], m, next);
      FieldKeeps(env, shapes, fields[0], at, m);
      FieldsKeep(env, shapes, fields[1..], m, next);
    }
  }

  ghost predicate StateFits(env: Environment, state: State) {
    var fits := TablesFit(env, state.core.values, state.core.slots, state.core.rows);
    fits
  }

  /** More values, and this many more rows. */
  predicate Grown(at: State, next: State, rows: nat) {
    at.core.values <= next.core.values && |next.core.rows| == |at.core.rows| + rows
  }

  lemma PayloadKeeps(env: Environment, at: State, header: Core, row: RegistryRow, next: State)
    requires PayloadReads(env, at, header, row, next) && header.rows == at.core.rows
    requires TablesFit(env, header.values, header.slots, header.rows)
    ensures TablesFit(env, next.core.values, next.core.slots, header.rows) && header.values <= next.core.values
  {
    if row.found.Unique? {
      var t, core := env.types(row.found.ordinal), next.core.(rows := at.core.rows);
      FieldsKeep(env, t.shapes, PayloadFields(t.isText), header, core);
      FieldsAppend(env, t.shapes, PayloadFields(t.isText), header, core);
    }
  }

  lemma RowKeeps(env: Environment, at: State, next: State)
    requires RowReads(env, at, next) && StateFits(env, at)
    ensures StateFits(env, next) && Grown(at, next, 1)
  {
    var header: Core :| IdentityReads(env, InRow(at.core), header) && RowFollows(env, at, header, next);
    var fields := [ScalarField(31), TextField(33), TextField(37), TextField(41)];
    FieldsKeep(env, env.host, fields, InRow(at.core), header);
    FieldsAppend(env, env.host, fields, InRow(at.core), header);
    RowCompletes(env, at, header, next);
  }

  lemma RowCompletes(env: Environment, at: State, header: Core, next: State)
    requires Appends(InRow(at.core), header) && RowFollows(env, at, header, next)
    requires TablesFit(env, header.values, header.slots, header.rows)
    ensures StateFits(env, next) && Grown(at, next, 1)
  {
    var row, charged := next.core.rows[|at.core.rows|], WithCost(env, at, header);
    PayloadKeeps(env, at, charged, row, next);
    RowAppended(env, at, header, row, next);
    RowsAppended(env, next.core.values, next.core.slots, at.core.rows, row);
  }

  lemma RowsAppended(env: Environment, values: seq<Meta.Row<Value>>, slots: seq<Slot>, rows: seq<RegistryRow>,
                     added: RegistryRow)
    requires TablesFit(env, values, slots, rows) && RowFits(env, values, added)
    ensures TablesFit(env, values, slots, rows + [added])
  {
  }

  lemma RowAppended(env: Environment, at: State, header: Core, row: RegistryRow, next: State)
    requires at.core.values <= header.values <= next.core.values
    requires Identifies(env, at, header, row) && Extents(at, header, row, next)
    requires row.kind == NullRow <==> row.found.Missing?
    requires row.kind.Payload? ==> row.found.Unique? && env.types(row.found.ordinal).Qualified?
    ensures RowFits(env, next.core.values, row)
  {
    var k := |at.core.values|;
    assert next.core.values[k + 1..k + 4] == header.values[k + 1..];
  }

  /** A relation that keeps a property while values and rows are added. */
  ghost predicate KeepsAlways(related: (State, State) -> bool, good: State -> bool) {
    forall s: State, n: State {:trigger related(s, n)} :: related(s, n) && good(s) ==> good(n) && Grown(s, n, 1)
  }

  lemma {:induction false} ChainKeeps(related: (State, State) -> bool, good: State -> bool, count: nat, at: State,
                                      next: State)
    requires KeepsAlways(related, good) && Chained(related, count, at, next) && good(at)
    ensures good(next) && Grown(at, next, count)
    decreases count
  {
    if count > 0 {
      var m: State :| related(at, m) && Chained(related, count - 1, m, next);
      ChainKeeps(related, good, count - 1, m, next);
    }
  }

  lemma RowsKeep(env: Environment, count: nat, at: State, next: State)
    requires Chained(RowRelation(env), count, at, next) && StateFits(env, at)
    ensures StateFits(env, next) && Grown(at, next, count)
  {
    var related, good := RowRelation(env), (s: State) => StateFits(env, s);
    forall s: State, n: State | related(s, n) && good(s) ensures good(n) && Grown(s, n, 1) {
      RowKeeps(env, s, n);
    }
    ChainKeeps(related, good, count, at, next);
  }

  // ----- The whole payload -----

  lemma HostKeeps(env: Environment, at: Core, elements: nat, elementsValue: nat, next: Core)
    requires HostReads(env, at, elements, elementsValue, next) && TablesFit(env, at.values, at.slots, at.rows)
    ensures TablesFit(env, next.values, next.slots, next.rows) && next.rows == at.rows
    ensures HasBits(next.values, elementsValue, 22, elements)
    ensures elementsValue == |at.values| + 9 && |next.values| == |at.values| + 10 + elements
  {
    var fields := [ScalarField(2), ScalarField(3), ScalarField(4), ScalarField(6), ScalarField(7), TextField(8),
                   TextField(12), RidField(17), RidField(19)];
    var front: Core, head: Core :| FieldsRead(env, env.host, fields, at, front) && elementsValue == |front.values|
                                   && ArrayReads(env, front, elements, head, next);
    FieldsKeep(env, env.host, fields, at, front);
    FieldsAppend(env, env.host, fields, at, front);
    FieldKeeps(env, env.host, ScalarField(22), front, head);
    FieldsKeep(env, env.host, seq(elements, _ => RidField(24)), head, next);
    FieldsAppend(env, env.host, seq(elements, _ => RidField(24)), head, next);
    assert next.values[elementsValue] == head.values[elementsValue];
  }

  lemma HeadKeeps(env: Environment, at: Core, rowCount: nat, rowCountValue: nat, next: Core)
    requires HeadReads(env, at, rowCount, rowCountValue, next) && TablesFit(env, at.values, at.slots, at.rows)
    ensures TablesFit(env, next.values, next.slots, next.rows) && next.rows == at.rows && at.values <= next.values
    ensures HasBits(next.values, |at.values|, 26, 2) && HasBits(next.values, rowCountValue, 29, rowCount)
    ensures rowCountValue == |at.values| + 1 && |next.values| == |at.values| + 2
    ensures next.values[|at.values|].source.offset == at.position
  {
    var m: Core :|
      && ScalarReads(env, env.host, 26, at, m) && m.values[|at.values|].value.bits == 2
      && CountReads(env, 29, env.limits.maxRows, m, rowCount, next) && rowCountValue == |m.values|;
    FieldKeeps(env, env.host, ScalarField(26), at, m);
    FieldKeeps(env, env.host, ScalarField(29), m, next);
  }

  lemma BitsStay(values: seq<Meta.Row<Value>>, more: seq<Meta.Row<Value>>, i: nat, node: nat, bits: nat)
    requires HasBits(values, i, node, bits) && values <= more
    ensures HasBits(more, i, node, bits)
  {
  }

  lemma RegistryKeeps(env: Environment, view: View, host: Core, head: Core, next: State)
    requires RegistryReads(env, view, host, head, next) && TablesFit(env, host.values, host.slots, host.rows)
    ensures TablesFit(env, next.core.values, next.core.slots, next.core.rows)
    ensures var values := next.core.values;
            && host.values <= values && |host.values| < |values|
            && HasBits(values, view.versionValue, 26, 2) && HasBits(values, view.rowCountValue, 29, view.rowCount)
            && view.versionValue == |host.values| && view.rowCountValue == |host.values| + 1
            && values[|host.values|].source.offset == view.registryStart
            && |next.core.rows| == |host.rows| + view.rowCount
  {
    HeadKeeps(env, host, view.rowCount, view.rowCountValue, head);
    RowsKeep(env, view.rowCount, State(head, [], 0), next);
    BitsStay(head.values, next.core.values, view.versionValue, 26, 2);
    BitsStay(head.values, next.core.values, view.rowCountValue, 29, view.rowCount);
    assert next.core.values[|host.values|] == head.values[|host.values|];
  }

  /** In whatever a payload parses to, every value, slot and row is what the bytes say. */
  lemma SpelledTablesFit(env: Environment, view: View, next: State)
    requires PayloadSpelled(env, view, next)
    ensures TablesFit(env, next.core.values, next.core.slots, next.core.rows)
    ensures ViewFits(view, next.core.values, next.core.rows)
  {
    var first := Core(env.start, 0, 0, 0, 0, 0, [], [], [], None);
    var host: Core, head: Core :|
      HostReads(env, first, view.elements, view.elementsValue, host) && RegistryReads(env, view, host, head, next);
    HostKeeps(env, first, view.elements, view.elementsValue, host);
    RegistryKeeps(env, view, host, head, next);
    BitsStay(host.values, next.core.values, view.elementsValue, 22, view.elements);
  }

  // ----- What a replay is charged for selecting types -----

  /** One unit for every cached type that is looked at. */
  function SelectedWork(rows: seq<RegistryRow>): nat {
    if rows == [] then 0
    else
      SelectedWork(rows[..|rows| - 1])
      + match rows[|rows| - 1].kind case NullRow => 0 case Payload(selected) => selected + 1
  }

  predicate ChargesSelections(at: State, next: State) {
    next.selecting - SelectedWork(next.core.rows) == at.selecting - SelectedWork(at.core.rows)
  }

  lemma OneMoreRow(rows: seq<RegistryRow>, row: RegistryRow)
    ensures SelectedWork(rows + [row])
            == SelectedWork(rows) + match row.kind case NullRow => 0 case Payload(selected) => selected + 1
  {
    assert (rows + [row])[..|rows|] == rows;
  }

  lemma SelectedCharges(env: Environment, before: Core, header: Core, at: State, identity: Identity, ordinal: nat)
    requires ValidEnvironment(env) && ReadSelected(env, true, before, header, at, identity, ordinal).Proceed?
    ensures ChargesSelections(at, ReadSelected(env, true, before, header, at, identity, ordinal).state)
  {
    var t := env.types(ordinal);
    var r := ReadFields(env, t.shapes, PayloadFields(t.isText), at.core);
    FieldsReadExactly(env, t.shapes, PayloadFields(t.isText), at.core, r.core);
    FieldsAppend(env, t.shapes, PayloadFields(t.isText), at.core, r.core);
    var next := ReadSelected(env, true, before, header, at, identity, ordinal).state;
    OneMoreRow(at.core.rows, next.core.rows[|at.core.rows|]);
  }

  lemma CheckCharges(env: Environment, before: Core, header: Core, at: State, identity: Identity, found: Match)
    requires ValidEnvironment(env) && FinishCheck(env, true, before, header, at, identity, found).Proceed?
    ensures ChargesSelections(at, FinishCheck(env, true, before, header, at, identity, found).state)
  {
    var decision := Decide(identity, found);
    if decision.Wanted? {
      SelectedCharges(env, before, header, at, identity, decision.ordinal);
    } else {
      var next := FinishCheck(env, true, before, header, at, identity, found).state;
      OneMoreRow(at.core.rows, next.core.rows[|at.core.rows|]);
    }
  }

  lemma RowCharges(env: Environment, at: State)
    requires ValidEnvironment(env) && ReadRow(env, true, at).Proceed?
    ensures ChargesSelections(at, ReadRow(env, true, at).state)
  {
    var r := ReadIdentity(env, InRow(at.core));
    IdentityReadsExactly(env, InRow(at.core), r.identity, r.core);
    FieldsAppend(env, env.host, [ScalarField(31), TextField(33), TextField(37), TextField(41)], InRow(at.core), r.core);
    var q := env.query(r.identity.names);
    CheckCharges(env, InRow(at.core), r.core, Charged(at, r.core, r.identity, q.cost), r.identity, q.found);
  }

  ghost predicate ChargesAlways(step: State -> StateStep) {
    forall s: State {:trigger step(s)} :: step(s).Proceed? ==> ChargesSelections(s, step(s).state)
  }

  lemma {:induction false} IterationCharges(step: State -> StateStep, count: nat, at: State)
    requires ChargesAlways(step) && Iterate(step, count, at).Proceed?
    ensures ChargesSelections(at, Iterate(step, count, at).state)
    decreases count
  {
    if count > 0 {
      IterationCharges(step, count - 1, step(at).state);
    }
  }

  /** A replay selects every row's type from the finished cache. */
  lemma ReplayCharges(env: Environment, cache: seq<nat>)
    requires ValidEnvironment(env) && ParsePayload(env, true, State(InitialCore(env), cache, 0)).Parsed?
    ensures var state := ParsePayload(env, true, State(InitialCore(env), cache, 0)).state;
            state.selecting == SelectedWork(state.core.rows)
  {
    var host := ReadHost(env, InitialCore(env));
    var head := ReadHead(env, host.core);
    HostReadsExactly(env, InitialCore(env), host.count, host.ordinal, host.core);
    HostKeeps(env, InitialCore(env), host.count, host.ordinal, host.core);
    HeadReadsExactly(env, host.core, head.count, head.ordinal, head.core);
    HeadKeeps(env, host.core, head.count, head.ordinal, head.core);
    forall s: State | RowStep(env, true)(s).Proceed? ensures ChargesSelections(s, RowStep(env, true)(s).state) {
      RowCharges(env, s);
    }
    IterationCharges(RowStep(env, true), head.count, State(head.core, cache, 0));
  }
}
