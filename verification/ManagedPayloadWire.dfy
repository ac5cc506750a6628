/** Whole managed payloads against their bytes: host fields, registry head and registry rows
    (src/io/serialized_file_managed_values.c). */
module ManagedPayloadWire {
  import opened Bytes
  import Meta = MetadataReader
  import opened Managed
  import opened ManagedRows
  import opened ManagedPayload
  import opened ManagedWire

  // ----- What the bytes say -----

  /** A scalar of the host schema that counts something. */
  predicate CountReads(env: Environment, node: nat, maximum: nat, at: Core, count: nat, next: Core) {
    && ScalarReads(env, env.host, node, at, next) && count <= 0x7FFF_FFFF && count <= maximum
    && next.values[|at.values|].value.bits == count
  }

  /** The nine fields in front, and an array of identifiers with its count. */
  ghost predicate HostReads(env: Environment, at: Core, elements: nat, elementsValue: nat, next: Core) {
    exists front: Core, head: Core {:trigger ArrayReads(env, front, elements, head, next)} ::
      && FieldsRead(env, env.host,
                    [ScalarField(2), ScalarField(3), ScalarField(4), ScalarField(6), ScalarField(7), TextField(8),
                     TextField(12), RidField(17), RidField(19)], at, front)
      && elementsValue == |front.values| && ArrayReads(env, front, elements, head, next)
  }

  ghost predicate ArrayReads(env: Environment, at: Core, elements: nat, head: Core, next: Core) {
    && CountReads(env, 22, env.limits.maxElements, at, elements, head)
    && FieldsRead(env, env.host, seq(elements, _ => RidField(24)), head, next)
  }

  /** Version 2 and the number of rows. */
  ghost predicate HeadReads(env: Environment, at: Core, rowCount: nat, rowCountValue: nat, next: Core) {
    exists m: Core {:trigger ScalarReads(env, env.host, 26, at, m)} ::
      && ScalarReads(env, env.host, 26, at, m) && m.values[|at.values|].value.bits == 2
      && CountReads(env, 29, env.limits.maxRows, m, rowCount, next) && rowCountValue == |m.values|
  }

  /** The bytes of a string value. */
  function TextOf(env: Environment, v: Value): seq<byte> {
    if v.Text? && v.text.offset + v.text.size <= |env.bytes|
    then env.bytes[v.text.offset..v.text.offset + v.text.size] else []
  }

  function Texts(env: Environment, values: seq<Meta.Row<Value>>): (r: seq<seq<byte>>)
    ensures |r| == |values|
  {
    seq(|values|, i requires 0 <= i < |values| => TextOf(env, values[i].value))
  }

  /** "Terminus", "UnityEngine.DMAT" and "FAKE_ASM". */
  function TerminatorBytes(): seq<seq<byte>> {
    [[84, 101, 114, 109, 105, 110, 117, 115],
     [85, 110, 105, 116, 121, 69, 110, 103, 105, 110, 101, 46, 68, 77, 65, 84],
     [70, 65, 75, 69, 95, 65, 83, 77]]
  }

  function InRow(core: Core): Core {
    core.(row := Some(|core.rows|))
  }

  /** An identifier and three names. */
  ghost predicate IdentityReads(env: Environment, at: Core, header: Core) {
    FieldsRead(env, env.host, [ScalarField(31), TextField(33), TextField(37), TextField(41)], at, header)
  }

  /** A type seen before has the place it was given, and a new one is qualified and goes to the end while there is
      room. */
  predicate SelectionReads(env: Environment, at: State, ordinal: nat, index: nat, cache: seq<nat>, selecting: nat) {
    && index < |cache| && cache[index] == ordinal && ordinal !in cache[..index] && env.types(ordinal).Qualified?
    && if ordinal in at.cache then cache == at.cache && selecting == at.selecting + index + 1
       else
         && cache == at.cache + [ordinal] && selecting == at.selecting + |at.cache| + env.types(ordinal).cost
         && |at.cache| < env.limits.maxTypes
         && env.prerequisites + RetainedTypes(env, cache) <= env.limits.maxPrerequisites
  }

  /** Behind the identity: nothing for the null row, and else the three fields of the type's payload. */
  ghost predicate PayloadReads(env: Environment, at: State, header: Core, row: RegistryRow, next: State) {
    && next.core.rows == at.core.rows + [row]
    && match row.found
       case Missing => row.kind == NullRow && next == State(header.(rows := next.core.rows), at.cache, at.selecting)
       case Ambiguous => false
       case Unique(ordinal) =>
         && row.kind.Payload?
         && SelectionReads(env, at, ordinal, row.kind.selected, next.cache, next.selecting)
         && FieldsRead(env, env.types(ordinal).shapes,
                       if env.types(ordinal).isText then [ScalarField(1), TextField(2), RidField(7)]
                       else [ScalarField(1), ScalarField(2), RidField(4)],
                       header, next.core.(rows := at.core.rows))
  }

  /** Where the values and the bytes of a row begin and end. */
  predicate Extents(at: State, header: Core, row: RegistryRow, next: State) {
    var fit :=
      && at.core.position <= header.position <= next.core.position && row.firstValue == |at.core.values|
      && row.firstPayload == |at.core.values| + 4 && row.valueEnd == |next.core.values|
      && row.source == Meta.Span(at.core.position, next.core.position - at.core.position)
      && row.payload == Meta.Span(header.position, next.core.position - header.position);
    fit
  }

  /** A row has the identifier and the names of its header and the index's answer to them. Names that the index does
      not have are empty, under the identifier -2; the terminator's names belong to no row. */
  predicate Identifies(env: Environment, at: State, header: Core, row: RegistryRow) {
    var k := |at.core.values|;
    var identifies :=
      && |header.values| == k + 4 && header.values[k].value.Scalar? && row.ridBits == header.values[k].value.bits
      && var names := Texts(env, header.values[k + 1..]);
         && names != TerminatorBytes() && env.query(names).Answer? && row.found == env.query(names).found
         && (row.found.Missing? ==> row.ridBits == 0xFFFF_FFFF_FFFF_FFFE && names == [[], [], []]);
    identifies
  }

  /** The work of looking at an identity. */
  function WithCost(env: Environment, at: State, header: Core): Core
    requires |at.core.values| + 4 == |header.values|
    requires env.query(Texts(env, header.values[|at.core.values| + 1..])).Answer?
  {
    var names := Texts(env, header.values[|at.core.values| + 1..]);
    header.(extra := header.extra + CompareNames(names, TerminatorBytes()).cost + env.query(names).cost)
  }

  ghost predicate RowFollows(env: Environment, at: State, header: Core, next: State) {
    && |next.core.rows| == |at.core.rows| + 1
    && var row := next.core.rows[|at.core.rows|];
       && Identifies(env, at, header, row) && Extents(at, header, row, next)
       && PayloadReads(env, at, WithCost(env, at, header), row, next)
  }

  ghost predicate RowReads(env: Environment, at: State, next: State) {
    exists header: Core {:trigger IdentityReads(env, InRow(at.core), header)} ::
      IdentityReads(env, InRow(at.core), header) && RowFollows(env, at, header, next)
  }

  ghost function RowRelation(env: Environment): ((State, State) -> bool) {
    (at, next) => RowReads(env, at, next)
  }

  /** One step behind the other. */
  ghost predicate Chained(step: (State, State) -> bool, count: nat, at: State, next: State) {
    if count == 0 then at == next
    else exists m: State {:trigger step(at, m)} :: step(at, m) && Chained(step, count - 1, m, next)
  }

  /** The whole payload, from its first byte to its last. */
  ghost predicate PayloadSpelled(env: Environment, view: View, next: State) {
    exists host: Core, head: Core {:trigger RegistryReads(env, view, host, head, next)} ::
      && HostReads(env, Core(env.start, 0, 0, 0, 0, 0, [], [], [], None), view.elements, view.elementsValue, host)
      && RegistryReads(env, view, host, head, next)
  }

  ghost predicate RegistryReads(env: Environment, view: View, host: Core, head: Core, next: State) {
    && HeadReads(env, host, view.rowCount, view.rowCountValue, head)
    && view.registryStart == host.position && view.versionValue == |host.values|
    && Chained(RowRelation(env), view.rowCount, State(head, [], 0), next) && next.core.position == env.end
  }

  // ----- The parser finds exactly that -----

  lemma CountReadsExactly(env: Environment, node: nat, maximum: nat, limit: Reason, at: Core, count: nat,
                          ordinal: nat, next: Core)
    requires ValidEnvironment(env)
    ensures ReadCount(env, node, maximum, limit, at) == Counted(count, ordinal, next)
            <==> CountReads(env, node, maximum, at, count, next) && ordinal == |at.values|
  {
    ScalarReadsExactly(env, env.host, node, at, next);
    var r := ReadScalar(env, env.host, node, at);
    if r.Next? {
      ScalarReadsExactly(env, env.host, node, at, r.core);
    }
  }

  lemma RepeatedIsConstant(field: Field, count: nat)
    ensures Repeated(field, count) == seq(count, _ => field)
  {
    if count > 0 {
      RepeatedIsConstant(field, count - 1);
      assert [field] + seq(count - 1, _ => field) == seq(count, _ => field);
    }
  }

  lemma ArrayReadsExactly(env: Environment, at: Core, elements: nat, ordinal: nat, next: Core)
    requires ValidEnvironment(env)
    ensures ReadHostArray(env, at) == Counted(elements, ordinal, next)
            <==> ordinal == |at.values| && exists head: Core :: ArrayReads(env, at, elements, head, next)
  {
    RepeatedIsConstant(RidField(24), elements);
    var fields := seq(elements, _ => RidField(24));
    if ReadHostArray(env, at) == Counted(elements, ordinal, next) {
      var head := ReadCount(env, 22, env.limits.maxElements, ElementLimit, at).core;
      CountReadsExactly(env, 22, env.limits.maxElements, ElementLimit, at, elements, ordinal, head);
      FieldsReadExactly(env, env.host, fields, head, next);
      assert ArrayReads(env, at, elements, head, next);
    }
    forall head: Core | ArrayReads(env, at, elements, head, next) && ordinal == |at.values|
      ensures ReadHostArray(env, at) == Counted(elements, ordinal, next)
    {
      CountReadsExactly(env, 22, env.limits.maxElements, ElementLimit, at, elements, ordinal, head);
      FieldsReadExactly(env, env.host, fields, head, next);
    }
  }

  lemma HostReadsExactly(env: Environment, at: Core, elements: nat, ordinal: nat, next: Core)
    requires ValidEnvironment(env)
    ensures ReadHost(env, at) == Counted(elements, ordinal, next) <==> HostReads(env, at, elements, ordinal, next)
  {
    if ReadHost(env, at) == Counted(elements, ordinal, next) {
      var front := ReadFields(env, env.host, HostFields(), at).core;
      FieldsReadExactly(env, env.host, HostFields(), at, front);
      ArrayReadsExactly(env, front, elements, ordinal, next);
    }
    if HostReads(env, at, elements, ordinal, next) {
      var front: Core, head: Core :|
        && FieldsRead(env, env.host,
                      [ScalarField(2), ScalarField(3), ScalarField(4), ScalarField(6), ScalarField(7), TextField(8),
                       TextField(12), RidField(17), RidField(19)], at, front)
        && ordinal == |front.values| && ArrayReads(env, front, elements, head, next);
      FieldsReadExactly(env, env.host, HostFields(), at, front);
      ArrayReadsExactly(env, front, elements, ordinal, next);
    }
  }

  lemma HeadReadsExactly(env: Environment, at: Core, rowCount: nat, ordinal: nat, next: Core)
    requires ValidEnvironment(env)
    ensures ReadHead(env, at) == Counted(rowCount, ordinal, next) <==> HeadReads(env, at, rowCount, ordinal, next)
  {
    if ReadHead(env, at) == Counted(rowCount, ordinal, next) {
      var m := ReadScalar(env, env.host, 26, at).core;
      ScalarReadsExactly(env, env.host, 26, at, m);
      CountReadsExactly(env, 29, env.limits.maxRows, RowLimit, m, rowCount, ordinal, next);
    }
    if HeadReads(env, at, rowCount, ordinal, next) {
      var m: Core :|
        && ScalarReads(env, env.host, 26, at, m) && m.values[|at.values|].value.bits == 2
        && CountReads(env, 29, env.limits.maxRows, m, rowCount, next) && ordinal == |m.values|;
      ScalarReadsExactly(env, env.host, 26, at, m);
      CountReadsExactly(env, 29, env.limits.maxRows, RowLimit, m, rowCount, ordinal, next);
    }
  }

  // ----- Rows -----

  lemma TerminatorIsSpelled()
    ensures TerminatorNames() == TerminatorBytes()
  {
    assert Ascii("Terminus") == TerminatorBytes()[0];
    assert Ascii("UnityEngine.DMAT") == TerminatorBytes()[1];
    assert Ascii("FAKE_ASM") == TerminatorBytes()[2];
  }

  function TextFields(nodes: seq<nat>): (r: seq<Field>)
    ensures |r| == |nodes|
  {
    if nodes == [] then [] else [TextField(nodes[0])] + TextFields(nodes[1..])
  }

  /** Reading names is reading their fields and taking their texts. */
  lemma {:induction false} NamesAreFields(env: Environment, nodes: seq<nat>, at: Core)
    requires ValidEnvironment(env)
    ensures Named(env, at, ReadNames(env, nodes, at), ReadFields(env, env.host, TextFields(nodes), at))
    decreases |nodes|
  {
    if nodes == [] {
      assert at.values[|at.values|..] == [];
    } else {
      NextName(env, nodes, at);
      var m := ReadText(env, nodes[0], at);
      if m.Next? {
        NamesAreFields(env, nodes[1..], m.core);
        NamedByOneMore(env, at, m.core, ReadNames(env, nodes[1..], m.core),
                       ReadFields(env, env.host, TextFields(nodes[1..]), m.core));
      }
    }
  }

  /** One field is read as it is named. */
  lemma NextField(env: Environment, nodes: seq<nat>, at: Core)
    requires ValidEnvironment(env) && nodes != []
    ensures ReadFields(env, env.host, TextFields(nodes), at)
            == match ReadText(env, nodes[0], at)
               case Stop(reason) => Stop(reason)
               case Next(core) => ReadFields(env, env.host, TextFields(nodes[1..]), core)
  {
    var fields := TextFields(nodes);
    assert fields[0] == TextField(nodes[0]) && fields[1..] == TextFields(nodes[1..]);
  }

  lemma NameOfText(env: Environment, node: nat, at: Core)
    requires ValidEnvironment(env) && ReadText(env, node, at).Next?
    ensures var m := ReadText(env, node, at).core;
            && |m.values| == |at.values| + 1 && m.values[..|at.values|] == at.values
            && ReadName(env, node, at) == Got(TextOf(env, m.values[|at.values|].value), m)
  {
    TextIsCommitted(env, node, at);
  }

  /** Reading one name, and one field. */
  lemma NextName(env: Environment, nodes: seq<nat>, at: Core)
    requires ValidEnvironment(env) && nodes != []
    ensures var m, names, fields := ReadText(env, nodes[0], at), ReadNames(env, nodes, at),
              ReadFields(env, env.host, TextFields(nodes), at);
            if m.Stop? then names == Refused(m.reason) && fields == m
            else
              && |m.core.values| == |at.values| + 1 && m.core.values[..|at.values|] == at.values
              && fields == ReadFields(env, env.host, TextFields(nodes[1..]), m.core)
              && var rest := ReadNames(env, nodes[1..], m.core);
                 names == if rest.Refused? then rest
                          else Got([TextOf(env, m.core.values[|at.values|].value)] + rest.value, rest.core)
  {
    NextField(env, nodes, at);
    if ReadText(env, nodes[0], at).Next? {
      NameOfText(env, nodes[0], at);
    }
  }

  /** Names and fields read alike, and the names are the texts appended. */
  predicate Named(env: Environment, at: Core, names: Read<seq<seq<byte>>>, fields: Step) {
    var named :=
      && (names.Got? <==> fields.Next?)
      && (names.Got? ==>
            && names.core == fields.core && |at.values| <= |names.core.values|
            && names.core.values[..|at.values|] == at.values
            && names.value == Texts(env, names.core.values[|at.values|..]));
    named
  }

  lemma NamedByOneMore(env: Environment, at: Core, m: Core, names: Read<seq<seq<byte>>>, fields: Step)
    requires |m.values| == |at.values| + 1 && m.values[..|at.values|] == at.values && Named(env, m, names, fields)
    ensures Named(env, at, if names.Refused? then names
                           else Got([TextOf(env, m.values[|at.values|].value)] + names.value, names.core), fields)
  {
    if names.Got? {
      FirstText(env, at.values, m.values, names.core.values);
    }
  }

  lemma FirstText(env: Environment, a: seq<Meta.Row<Value>>, b: seq<Meta.Row<Value>>, c: seq<Meta.Row<Value>>)
    requires |b| == |a| + 1 && b[..|a|] == a && |b| <= |c| && c[..|b|] == b
    ensures c[..|a|] == a
    ensures Texts(env, c[|a|..]) == [TextOf(env, b[|a|].value)] + Texts(env, c[|b|..])
  {
    assert c[|a|] == b[|a|];
    assert c[|a|..] == [c[|a|]] + c[|b|..];
  }

  /** Identities are read exactly as they are spelled. */
  lemma IdentityReadsExactly(env: Environment, at: Core, identity: Identity, header: Core)
    requires ValidEnvironment(env)
    ensures ReadIdentity(env, at) == Identified(identity, header)
            <==> && IdentityReads(env, at, header) && |header.values| == |at.values| + 4
                 && header.values[|at.values|].value.Scalar?
                 && identity == Identity(header.values[|at.values|].value.bits,
                                         Texts(env, header.values[|at.values| + 1..]))
  {
    var fields := [ScalarField(31), TextField(33), TextField(37), TextField(41)];
    FieldsReadExactly(env, env.host, fields, at, header);
    IdentityInSteps(env, at);
    if IdentityReads(env, at, header) {
      FieldsAppend(env, env.host, fields, at, header);
    }
    if ReadFields(env, env.host, fields, at).Next? {
      FieldsReadExactly(env, env.host, fields, at, ReadFields(env, env.host, fields, at).core);
      FieldsAppend(env, env.host, fields, at, ReadFields(env, env.host, fields, at).core);
    }
  }

  lemma IdentityInSteps(env: Environment, at: Core)
    requires ValidEnvironment(env)
    ensures var r, fields := ReadIdentity(env, at),
              ReadFields(env, env.host, [ScalarField(31), TextField(33), TextField(37), TextField(41)], at);
            && (r.Identified? <==> fields.Next?)
            && (r.Identified? ==>
                  && r.core == fields.core && |at.values| + 1 <= |r.core.values|
                  && r.core.values[|at.values|].value.Scalar?
                  && r.identity == Identity(r.core.values[|at.values|].value.bits,
                                            Texts(env, r.core.values[|at.values| + 1..])))
  {
    var fields := [ScalarField(31), TextField(33), TextField(37), TextField(41)];
    assert fields[1..] == TextFields(NAME_NODES) by {
      ThreeNames();
    }
    var m := ReadScalar(env, env.host, 31, at);
    if m.Next? {
      ScalarIsCommitted(env, env.host, 31, at);
      NamesAreFields(env, NAME_NODES, m.core);
      var names := ReadNames(env, NAME_NODES, m.core);
      if names.Got? {
        assert names.core.values[|at.values|] == m.core.values[|at.values|];
      }
    }
  }

  lemma ThreeNames()
    ensures TextFields(NAME_NODES) == [TextField(33), TextField(37), TextField(41)]
  {
    var nodes := NAME_NODES;
    assert nodes[1..] == [37, 41] && nodes[1..][1..] == [41] && nodes[1..][1..][1..] == [];
    assert TextFields([41]) == [TextField(41)];
    assert TextFields(nodes[1..]) == [TextField(37), TextField(41)];
  }

  lemma SelectionReadsExactly(env: Environment, at: State, ordinal: nat, index: nat, cache: seq<nat>, cost: nat)
    ensures Select(env, false, at.cache, ordinal) == Found(index, cache, cost) && env.types(ordinal).Qualified?
            <==> SelectionReads(env, at, ordinal, index, cache, at.selecting + cost)
  {
    var i := IndexOf(at.cache, ordinal);
    var grown := at.cache + [ordinal];
    assert grown[..|at.cache|] == at.cache && grown[|at.cache|] == ordinal;
    if ordinal !in at.cache && index < |grown| && grown[index] == ordinal {
      assert index == |at.cache|;
    }
  }

  /** What a header adds to the core before its row. */
  predicate Heads(env: Environment, at: State, header: Core, identity: Identity) {
    && Appends(InRow(at.core), header) && |header.values| == |at.core.values| + 4
    && header.values[|at.core.values|].value.Scalar?
    && identity == Identity(header.values[|at.core.values|].value.bits,
                            Texts(env, header.values[|at.core.values| + 1..]))
  }

  lemma EmptyNames(identity: Identity)
    requires |identity.names| == 3
    ensures IsEmpty(identity) <==> identity.names == [[], [], []]
  {
    var names := identity.names;
    assert names[0] in names && names[1] in names && names[2] in names;
    if IsEmpty(identity) {
      assert names == [names[0], names[1], names[2]];
    }
  }

  /** The record that a finished row gets. */
  lemma FinishedRow(at: State, header: Core, core: Core, kind: Kind, identity: Identity, found: Match, row: RegistryRow,
                    next: State)
    requires |header.values| == |at.core.values| + 4 && core.rows == at.core.rows
      && at.core.position <= header.position <= core.position && next.core == core.(rows := next.core.rows)
    requires row.kind == kind && row.ridBits == identity.rid && row.found == found && Extents(at, header, row, next)
    ensures FinishRow(InRow(at.core), header, core, kind, identity, found) == core.(rows := core.rows + [row])
  {
  }

  /** The payload of a selected type. */
  lemma SelectedIsSpelled(env: Environment, at: State, header: Core, identity: Identity, charged: Core, ordinal: nat)
    requires ValidEnvironment(env) && Heads(env, at, header, identity) && charged == header.(extra := charged.extra)
    requires ReadSelected(env, false, InRow(at.core), header, at.(core := charged), identity, ordinal).Proceed?
    ensures var next := ReadSelected(env, false, InRow(at.core), header, at.(core := charged), identity, ordinal).state;
            && |next.core.rows| == |at.core.rows| + 1
            && var row := next.core.rows[|at.core.rows|];
               && row.found == Unique(ordinal) && row.ridBits == identity.rid && Extents(at, header, row, next)
               && PayloadReads(env, at, charged, row, next)
  {
    var t := env.types(ordinal);
    var s := Select(env, false, at.cache, ordinal);
    SelectionReadsExactly(env, at, ordinal, s.index, s.cache, s.cost);
    var core := ReadFields(env, t.shapes, PayloadFields(t.isText), charged).core;
    FieldsReadExactly(env, t.shapes, PayloadFields(t.isText), charged, core);
    FieldsAppend(env, t.shapes, PayloadFields(t.isText), charged, core);
    var next := ReadSelected(env, false, InRow(at.core), header, at.(core := charged), identity, ordinal).state;
    assert next.core.(rows := at.core.rows) == core;
  }

  /** The selection, the fields and the finished row, one after the other. */
  lemma SelectedPayload(env: Environment, at: State, header: Core, identity: Identity, charged: Core, ordinal: nat,
                        index: nat, core: Core, next: State)
    requires ValidEnvironment(env) && env.types(ordinal).Qualified? && at.selecting <= next.selecting
    requires Select(env, false, at.cache, ordinal) == Found(index, next.cache, next.selecting - at.selecting)
    requires ReadFields(env, env.types(ordinal).shapes, PayloadFields(env.types(ordinal).isText), charged) == Next(core)
    requires FinishRow(InRow(at.core), header, core, Payload(index), identity, Unique(ordinal)) == next.core
    ensures ReadSelected(env, false, InRow(at.core), header, at.(core := charged), identity, ordinal) == Proceed(next)
  {
  }

  lemma SpelledIsSelected(env: Environment, at: State, header: Core, identity: Identity, charged: Core, ordinal: nat,
                          row: RegistryRow, next: State)
    requires ValidEnvironment(env) && Heads(env, at, header, identity) && charged == header.(extra := charged.extra)
    requires row.found == Unique(ordinal) && row.ridBits == identity.rid && Extents(at, header, row, next)
    requires PayloadReads(env, at, charged, row, next)
    ensures ReadSelected(env, false, InRow(at.core), header, at.(core := charged), identity, ordinal) == Proceed(next)
  {
    var t, core := env.types(ordinal), next.core.(rows := at.core.rows);
    SelectionReadsExactly(env, at, ordinal, row.kind.selected, next.cache, next.selecting - at.selecting);
    FieldsReadExactly(env, t.shapes, PayloadFields(t.isText), charged, core);
    FinishedRow(at, header, core, row.kind, identity, row.found, row, next);
    SelectedPayload(env, at, header, identity, charged, ordinal, row.kind.selected, core, next);
  }

  /** The null row. */
  lemma NullIsSpelled(env: Environment, at: State, header: Core, identity: Identity, charged: Core)
    requires Heads(env, at, header, identity) && charged == header.(extra := charged.extra)
    ensures var next := State(FinishRow(InRow(at.core), header, charged, NullRow, identity, Missing), at.cache,
                              at.selecting);
            && |next.core.rows| == |at.core.rows| + 1
            && var row := next.core.rows[|at.core.rows|];
               && row.found == Missing && row.ridBits == identity.rid && Extents(at, header, row, next)
               && PayloadReads(env, at, charged, row, next)
  {
  }

  lemma SpelledIsNull(env: Environment, at: State, header: Core, identity: Identity, charged: Core, row: RegistryRow,
                      next: State)
    requires Heads(env, at, header, identity) && charged == header.(extra := charged.extra)
    requires row.found == Missing && row.ridBits == identity.rid && Extents(at, header, row, next)
    requires PayloadReads(env, at, charged, row, next)
    ensures State(FinishRow(InRow(at.core), header, charged, NullRow, identity, Missing), at.cache, at.selecting)
            == next
  {
    FinishedRow(at, header, charged, NullRow, identity, Missing, row, next);
  }

  /** The decision, with the null identifier written out. */
  lemma DecidesBy(identity: Identity, found: Match)
    requires |identity.names| == 3
    ensures match found
            case Unique(ordinal) => Decide(identity, found) == Wanted(ordinal)
            case Ambiguous => Decide(identity, found).Rejected?
            case Missing =>
              if identity.rid == 0xFFFF_FFFF_FFFF_FFFE && identity.names == [[], [], []]
              then Decide(identity, found) == Empty else Decide(identity, found).Rejected?
  {
    EmptyNames(identity);
  }

  /** The checks of an identity come before its kind. */
  lemma CheckedBeforeKind(env: Environment, at: State, header: Core, identity: Identity)
    requires ValidEnvironment(env) && Heads(env, at, header, identity) && |identity.names| == 3
    ensures var r := CheckRow(env, false, InRow(at.core), header, at, identity);
            var q := env.query(identity.names);
            if identity.names == TerminatorBytes() || !q.Answer? then r.Halt?
            else
              r == FinishCheck(env, false, InRow(at.core), header, at.(core := WithCost(env, at, header)), identity,
                               q.found)
  {
    var q := env.query(identity.names);
    ComparedToTerminator(identity.names);
    if q.Answer? {
      ChargedIsWithCost(env, at, header, identity);
    }
  }

  lemma ComparedToTerminator(names: seq<seq<byte>>)
    requires |names| == 3
    ensures CompareNames(names, TerminatorNames()) == CompareNames(names, TerminatorBytes())
    ensures CompareNames(names, TerminatorNames()).same <==> names == TerminatorBytes()
  {
    TerminatorIsSpelled();
  }

  lemma ChargedIsWithCost(env: Environment, at: State, header: Core, identity: Identity)
    requires Heads(env, at, header, identity) && |identity.names| == 3 && env.query(identity.names).Answer?
    ensures Charged(at, header, identity, env.query(identity.names).cost) == at.(core := WithCost(env, at, header))
  {
    ComparedToTerminator(identity.names);
  }

  /** What is left is the kind of the row. */
  lemma KindDecides(env: Environment, before: Core, header: Core, state: State, identity: Identity, found: Match)
    requires ValidEnvironment(env) && |identity.names| == 3
    ensures var r := FinishCheck(env, false, before, header, state, identity, found);
            match found
            case Unique(ordinal) => r == ReadSelected(env, false, before, header, state, identity, ordinal)
            case Ambiguous => r.Halt?
            case Missing =>
              if identity.rid == 0xFFFF_FFFF_FFFF_FFFE && identity.names == [[], [], []]
              then r == Proceed(state.(core := FinishRow(before, header, state.core, NullRow, identity, Missing)))
              else r.Halt?
  {
    DecidesBy(identity, found);
  }

  /** A row whose identity passes the checks: what is left is its kind. */
  lemma CheckInSteps(env: Environment, at: State, header: Core, identity: Identity)
    requires ValidEnvironment(env) && Heads(env, at, header, identity) && |identity.names| == 3
    ensures var r := CheckRow(env, false, InRow(at.core), header, at, identity);
            var q := env.query(identity.names);
            if identity.names == TerminatorBytes() || !q.Answer? || q.found.Ambiguous? then r.Halt?
            else
              var charged := WithCost(env, at, header);
              if q.found.Unique?
              then
                r == ReadSelected(env, false, InRow(at.core), header, at.(core := charged), identity, q.found.ordinal)
              else if identity.rid == 0xFFFF_FFFF_FFFF_FFFE && identity.names == [[], [], []]
              then r == Proceed(State(FinishRow(InRow(at.core), header, charged, NullRow, identity, Missing), at.cache,
                                      at.selecting))
              else r.Halt?
  {
    CheckedBeforeKind(env, at, header, identity);
    var q := env.query(identity.names);
    if q.Answer? && identity.names != TerminatorBytes() {
      KindDecides(env, InRow(at.core), header, at.(core := WithCost(env, at, header)), identity, q.found);
    }
  }

  /** What follows the identity of a row is read exactly as it is spelled. */
  lemma FollowsIsSpelled(env: Environment, at: State, header: Core, identity: Identity)
    requires ValidEnvironment(env) && Heads(env, at, header, identity) && |identity.names| == 3
    requires CheckRow(env, false, InRow(at.core), header, at, identity).Proceed?
    ensures RowFollows(env, at, header, CheckRow(env, false, InRow(at.core), header, at, identity).state)
  {
    CheckInSteps(env, at, header, identity);
    var found, charged := env.query(identity.names).found, WithCost(env, at, header);
    if found.Unique? {
      SelectedIsSpelled(env, at, header, identity, charged, found.ordinal);
    } else {
      NullIsSpelled(env, at, header, identity, charged);
    }
  }

  lemma SpelledFollows(env: Environment, at: State, header: Core, identity: Identity, next: State)
    requires ValidEnvironment(env) && Heads(env, at, header, identity) && |identity.names| == 3
    requires RowFollows(env, at, header, next)
    ensures CheckRow(env, false, InRow(at.core), header, at, identity) == Proceed(next)
  {
    CheckInSteps(env, at, header, identity);
    var row, charged := next.core.rows[|at.core.rows|], WithCost(env, at, header);
    if row.found.Unique? {
      SpelledIsSelected(env, at, header, identity, charged, row.found.ordinal, row, next);
    } else {
      SpelledIsNull(env, at, header, identity, charged, row, next);
    }
  }

  /** A spelled identity is the identity read, and heads its row. */
  lemma IdentityHeads(env: Environment, at: State, header: Core) returns (identity: Identity)
    requires ValidEnvironment(env) && IdentityReads(env, InRow(at.core), header)
    ensures ReadIdentity(env, InRow(at.core)) == Identified(identity, header)
    ensures Heads(env, at, header, identity) && |identity.names| == 3
  {
    var k := |at.core.values|;
    IdentityInSteps(env, InRow(at.core));
    FieldsReadExactly(env, env.host, [ScalarField(31), TextField(33), TextField(37), TextField(41)], InRow(at.core),
                      header);
    identity := ReadIdentity(env, InRow(at.core)).identity;
    FieldsAppend(env, env.host, [ScalarField(31), TextField(33), TextField(37), TextField(41)], InRow(at.core), header);
  }

  /** Rows are read exactly as they are spelled. */
  lemma RowReadsExactly(env: Environment, at: State, next: State)
    requires ValidEnvironment(env)
    ensures ReadRow(env, false, at) == Proceed(next) <==> RowReads(env, at, next)
  {
    if ReadRow(env, false, at) == Proceed(next) {
      var r := ReadIdentity(env, InRow(at.core));
      IdentityReadsExactly(env, InRow(at.core), r.identity, r.core);
      var identity := IdentityHeads(env, at, r.core);
      FollowsIsSpelled(env, at, r.core, identity);
    }
    if RowReads(env, at, next) {
      var header: Core :| IdentityReads(env, InRow(at.core), header) && RowFollows(env, at, header, next);
      var identity := IdentityHeads(env, at, header);
      SpelledFollows(env, at, header, identity, next);
    }
  }

  /** A step does what a relation says. */
  ghost predicate Follows(step: State -> StateStep, related: (State, State) -> bool) {
    forall s: State, n: State {:trigger related(s, n)} :: step(s) == Proceed(n) <==> related(s, n)
  }

  lemma {:induction false} IterationIsChained(step: State -> StateStep, related: (State, State) -> bool, count: nat,
                                              at: State, next: State)
    requires Follows(step, related)
    ensures Iterate(step, count, at) == Proceed(next) <==> Chained(related, count, at, next)
    decreases count
  {
    if count > 0 {
      if Iterate(step, count, at) == Proceed(next) {
        var m := step(at).state;
        assert related(at, m);
        IterationIsChained(step, related, count - 1, m, next);
      }
      if Chained(related, count, at, next) {
        var m: State :| related(at, m) && Chained(related, count - 1, m, next);
        IterationIsChained(step, related, count - 1, m, next);
      }
    }
  }

  lemma RowsReadExactly(env: Environment, count: nat, at: State, next: State)
    requires ValidEnvironment(env)
    ensures ReadRows(env, false, count, at) == Proceed(next) <==> Chained(RowRelation(env), count, at, next)
  {
    var step, related := RowStep(env, false), RowRelation(env);
    forall s: State, n: State ensures step(s) == Proceed(n) <==> related(s, n) {
      RowReadsExactly(env, s, n);
    }
    IterationIsChained(step, related, count, at, next);
  }

  lemma RegistryReadsExactly(env: Environment, view: View, host: Core, next: State)
    requires ValidEnvironment(env)
    ensures ParseRegistry(env, false, view.elements, view.elementsValue, State(host, [], 0)) == Parsed(view, next)
            <==> exists head: Core :: RegistryReads(env, view, host, head, next)
  {
    if ParseRegistry(env, false, view.elements, view.elementsValue, State(host, [], 0)) == Parsed(view, next) {
      var head := ReadHead(env, host).core;
      HeadReadsExactly(env, host, view.rowCount, view.rowCountValue, head);
      RowsReadExactly(env, view.rowCount, State(head, [], 0), next);
      assert RegistryReads(env, view, host, head, next);
    }
    if head: Core :| RegistryReads(env, view, host, head, next) {
      HeadReadsExactly(env, host, view.rowCount, view.rowCountValue, head);
      RowsReadExactly(env, view.rowCount, State(head, [], 0), next);
    }
  }

  /** The measuring pass parses a payload exactly when its bytes spell one, and then to what they spell. */
  lemma PayloadReadsExactly(env: Environment, view: View, next: State)
    requires ValidEnvironment(env)
    ensures ParsePayload(env, false, State(InitialCore(env), [], 0)) == Parsed(view, next)
            <==> PayloadSpelled(env, view, next)
  {
    var first := InitialCore(env);
    if ParsePayload(env, false, State(first, [], 0)) == Parsed(view, next) {
      var host := ReadHost(env, first).core;
      HostReadsExactly(env, first, view.elements, view.elementsValue, host);
      RegistryReadsExactly(env, view, host, next);
    }
    if PayloadSpelled(env, view, next) {
      var host: Core, head: Core :|
        && HostReads(env, Core(env.start, 0, 0, 0, 0, 0, [], [], [], None), view.elements, view.elementsValue, host)
        && RegistryReads(env, view, host, head, next);
      HostReadsExactly(env, first, view.elements, view.elementsValue, host);
      RegistryReadsExactly(env, view, host, next);
    }
  }
}
