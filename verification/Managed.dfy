/** Managed object payloads as a function of their bytes (src/io/serialized_file_managed_values.c). The
    qualified schemas, the reference index and the costs of consulting them are parameters. */
module Managed {
  import opened Bytes
  import Meta = MetadataReader

  const ALIGNMENT: nat := 4
  const REGISTRY_VERSION: nat := 2
  const NULL_RID: u64 := 0xFFFF_FFFF_FFFF_FFFE

  // ----- Parameters -----

  /** Profiles admit scalars of 1, 4 and 8 bytes only. */
  datatype Width = One | Four | Eight

  datatype NodeShape = NodeShape(width: Width, aligned: bool)

  /** The scalar nodes of one qualified schema, by ordinal. */
  type Shapes = nat -> NodeShape

  datatype Match = Missing | Unique(ordinal: nat) | Ambiguous

  /** An answer of the reference index with its work, or a refusal with the work it took. */
  datatype Query = Answer(found: Match, cost: nat) | QueryRefused(cost: nat)

  /** What compiling and qualifying a reference type comes to, given enough work and bytes: its scalar nodes
      with the work it takes and the bytes it retains, or a refusal. */
  datatype Selected = Qualified(shapes: Shapes, isText: bool, cost: nat, retained: nat) | Unqualified(cost: nat)

  datatype Limits = Limits(maxValues: nat, maxSlots: nat, maxElements: nat, maxRows: nat, maxScalar: nat,
                           maxScalars: nat, maxString: nat, maxStrings: nat, maxPadding: nat, maxTypes: nat,
                           maxPrerequisites: nat)

  datatype Environment = Environment(bytes: seq<byte>, start: nat, end: nat, limits: Limits, host: Shapes,
                                     query: seq<seq<byte>> -> Query, types: nat -> Selected, prerequisites: nat)

  predicate ValidEnvironment(env: Environment) {
    env.start <= env.end <= |env.bytes|
  }

  // ----- Records -----

  datatype Value =
    | Scalar(node: nat, row: Option<nat>, bits: u64, scalar: Meta.Span, alignment: Option<Meta.Span>)
    | Text(node: nat, row: Option<nat>, length: Meta.Span, text: Meta.Span, padding: Meta.Span)

  datatype Slot = Slot(valueOrdinal: nat, row: Option<nat>, bits: u64)

  datatype Kind = NullRow | Payload(selected: nat)

  /** A registry row: its kind, identity and the extents of its values. */
  datatype RegistryRow = RegistryRow(kind: Kind, ridBits: u64, found: Match, firstValue: nat, firstPayload: nat,
                                     valueEnd: nat, payload: Meta.Span, source: Meta.Span)

  datatype Reason = Truncated | WorkLimit | ValueLimit | SlotLimit | ScalarLimit | TotalScalarLimit | StringLimit
                  | TotalStringLimit | PaddingLimit | BadStringLength | BadCount | ElementLimit | RowLimit | BadVersion
                  | Terminator | QueryFailed | BadNullRow | TypeMissing | TypeAmbiguous | TypeLimit | PrerequisiteLimit
                  | TypeRejected
                  | TrailingBytes | InternalError

  /** Everything a parse accumulates that does not depend on the type cache. `spans` counts the reads and
      `extra` the work of checking identities. */
  datatype Core = Core(position: nat, strings: nat, scalars: nat, padding: nat, spans: nat, extra: nat,
                       values: seq<Meta.Row<Value>>, slots: seq<Slot>, rows: seq<RegistryRow>, row: Option<nat>)

  datatype Step = Next(core: Core) | Stop(reason: Reason)

  /** The work a core stands for: each byte and each span, value, slot and row, and the identity checks. */
  function CoreWeight(core: Core): nat {
    core.position + core.spans + |core.values| + |core.slots| + |core.rows| + core.extra
  }

  /** Nothing a core accumulates has shrunk. */
  predicate Below(before: Core, after: Core) {
    && CoreWeight(before) <= CoreWeight(after) && |before.values| <= |after.values|
    && |before.slots| <= |after.slots| && |before.rows| <= |after.rows|
  }

  // ----- Spans and values -----

  datatype Read<+T> = Got(value: T, core: Core) | Refused(reason: Reason)

  function TakeSpan(env: Environment, core: Core, width: nat): (r: Read<Meta.Span>)
    ensures r.Got? ==> r.value == Meta.Span(core.position, width) && core.position + width <= env.end
    ensures r.Got? ==> r.core == core.(position := core.position + width, spans := core.spans + 1)
  {
    if core.position + width > env.end then Refused(Truncated)
    else Got(Meta.Span(core.position, width), core.(position := core.position + width, spans := core.spans + 1))
  }

  function PaddingWidth(position: nat): (r: nat)
    ensures r < ALIGNMENT && (position + r) % ALIGNMENT == 0
  {
    var remainder := position % ALIGNMENT;
    if remainder == 0 then 0 else ALIGNMENT - remainder
  }

  function TakePadding(env: Environment, core: Core): (r: Read<Meta.Span>)
    ensures r.Got? ==> r.value == Meta.Span(core.position, PaddingWidth(core.position))
    ensures r.Got? ==> r.core == core.(position := core.position + r.value.size, spans := core.spans + 1,
                                       padding := core.padding + r.value.size)
  {
    var width := PaddingWidth(core.position);
    if core.padding + width > env.limits.maxPadding then Refused(PaddingLimit)
    else TakeSpan(env, core.(padding := core.padding + width), width)
  }

  function WidthOf(width: Width): nat {
    match width case One => 1 case Four => 4 case Eight => 8
  }

  function RawBits(b: seq<byte>): u64
    requires |b| == 1 || |b| == 4 || |b| == 8
  {
    if |b| == 1 then b[0] as int else if |b| == 4 then Decode32(b, false) else Decode64(b, false)
  }

  function SpanBytes(env: Environment, span: Meta.Span): seq<byte>
    requires span.offset + span.size <= |env.bytes|
  {
    env.bytes[span.offset..span.offset + span.size]
  }

  function Commit(core: Core, start: nat, value: Value): Core {
    core.(values := core.values +
          [Meta.Row(value, Meta.Span(start, if core.position < start then 0 else core.position - start))])
  }

  function ReadScalar(env: Environment, shapes: Shapes, node: nat, core: Core): Step
    requires ValidEnvironment(env)
  {
    var shape, width := shapes(node), WidthOf(shapes(node).width);
    if |core.values| >= env.limits.maxValues then Stop(ValueLimit)
    else if width > env.limits.maxScalar then Stop(ScalarLimit)
    else if core.scalars + width > env.limits.maxScalars then Stop(TotalScalarLimit)
    else ReadScalarBody(env, shape, node, core.(scalars := core.scalars + width))
  }

  function ReadScalarBody(env: Environment, shape: NodeShape, node: nat, core: Core): Step
    requires ValidEnvironment(env)
  {
    match TakeSpan(env, core, WidthOf(shape.width))
    case Refused(reason) => Stop(reason)
    case Got(scalar, core1) =>
      var bits := RawBits(SpanBytes(env, scalar));
      if !shape.aligned then Next(Commit(core1, core.position, Scalar(node, core.row, bits, scalar, None)))
      else
        match TakePadding(env, core1)
        case Refused(reason) => Stop(reason)
        case Got(padding, core2) =>
          Next(Commit(core2, core.position, Scalar(node, core.row, bits, scalar, Some(padding))))
  }

  function ReadText(env: Environment, node: nat, core: Core): Step
    requires ValidEnvironment(env)
  {
    if |core.values| >= env.limits.maxValues then Stop(ValueLimit)
    else
      match TakeSpan(env, core, 4)
      case Refused(reason) => Stop(reason)
      case Got(length, core1) =>
        ReadSizedText(env, node, core.position, length, Decode32(SpanBytes(env, length), false), core1)
  }

  function ReadSizedText(env: Environment, node: nat, start: nat, length: Meta.Span, size: u32, core: Core): Step {
    if size > INT_MAX then Stop(BadStringLength)
    else if size > env.limits.maxString then Stop(StringLimit)
    else if core.strings + size > env.limits.maxStrings then Stop(TotalStringLimit)
    else ReadTextBody(env, node, start, length, size, core.(strings := core.strings + size))
  }

  function ReadTextBody(env: Environment, node: nat, start: nat, length: Meta.Span, size: nat, core: Core): Step {
    match TakeSpan(env, core, size)
    case Refused(reason) => Stop(reason)
    case Got(text, core1) =>
      match TakePadding(env, core1)
      case Refused(reason) => Stop(reason)
      case Got(padding, core2) => Next(Commit(core2, start, Text(node, core.row, length, text, padding)))
  }

  function LastBits(core: Core): u64
    requires core.values != [] && core.values[|core.values| - 1].value.Scalar?
  {
    core.values[|core.values| - 1].value.bits
  }

  lemma ScalarIsCommitted(env: Environment, shapes: Shapes, node: nat, core: Core)
    requires ValidEnvironment(env) && ReadScalar(env, shapes, node, core).Next?
    ensures var c := ReadScalar(env, shapes, node, core).core;
            && |c.values| == |core.values| + 1 && c.values[..|core.values|] == core.values
            && c.values[|core.values|].value.Scalar? && c.slots == core.slots && c.rows == core.rows
            && c.row == core.row
            && c.extra == core.extra && c.strings == core.strings
  {
  }

  function ReadSlot(env: Environment, shapes: Shapes, node: nat, core: Core): Step
    requires ValidEnvironment(env)
  {
    if |core.slots| >= env.limits.maxSlots then Stop(SlotLimit)
    else
      match ReadScalar(env, shapes, node, core)
      case Stop(reason) => Stop(reason)
      case Next(core1) =>
        ScalarIsCommitted(env, shapes, node, core);
        Next(WithSlot(core1, |core.values|, core.row))
  }

  /** The core once the scalar just read is registered as a slot. */
  function WithSlot(core: Core, ordinal: nat, row: Option<nat>): Core
    requires core.values != [] && core.values[|core.values| - 1].value.Scalar?
  {
    core.(slots := core.slots + [Slot(ordinal, row, LastBits(core))])
  }

  // ----- Field lists -----

  datatype Field = ScalarField(node: nat) | TextField(node: nat) | RidField(node: nat)

  function ReadField(env: Environment, shapes: Shapes, field: Field, core: Core): Step
    requires ValidEnvironment(env)
  {
    match field
    case ScalarField(node) => ReadScalar(env, shapes, node, core)
    case TextField(node) => ReadText(env, node, core)
    case RidField(node) => ReadSlot(env, shapes, node, core)
  }

  function ReadFields(env: Environment, shapes: Shapes, fields: seq<Field>, core: Core): Step
    requires ValidEnvironment(env)
  {
    if fields == [] then Next(core)
    else
      match ReadField(env, shapes, fields[0], core)
      case Stop(reason) => Stop(reason)
      case Next(core1) => ReadFields(env, shapes, fields[1..], core1)
  }

  // ----- What a field adds -----

  function StringCount(values: seq<Meta.Row<Value>>): nat {
    if values == [] then 0
    else StringCount(values[..|values| - 1]) + (if values[|values| - 1].value.Text? then 1 else 0)
  }

  /** The values tile the payload so far, and the consumed bytes are exactly the strings, scalars and padding
      with four length bytes for each string. */
  predicate Accounted(env: Environment, core: Core) {
    && env.start <= core.position <= env.end && Meta.Tiles(Meta.Sources(core.values), env.start, core.position)
    && core.position - env.start == core.strings + core.scalars + core.padding + 4 * StringCount(core.values)
  }

  lemma CommitTiles(env: Environment, before: seq<Meta.Row<Value>>, start: nat, end: nat, value: Value)
    requires start <= end && Meta.Tiles(Meta.Sources(before), env.start, start)
    ensures var after := before + [Meta.Row(value, Meta.Span(start, end - start))];
            && Meta.Tiles(Meta.Sources(after), env.start, end)
            && StringCount(after) == StringCount(before) + (if value.Text? then 1 else 0)
  {
    var row := Meta.Row(value, Meta.Span(start, end - start));
    assert [row.source][1..] == [];
    assert Meta.Tiles([row.source], start, end);
    Meta.TilesJoin(Meta.Sources(before), [row.source], env.start, start, end);
    assert Meta.Sources(before + [row]) == Meta.Sources(before) + [row.source];
    assert (before + [row])[..|before|] == before;
  }

  lemma ScalarIsAccounted(env: Environment, shapes: Shapes, node: nat, core: Core)
    requires ValidEnvironment(env) && Accounted(env, core) && ReadScalar(env, shapes, node, core).Next?
    ensures Accounted(env, ReadScalar(env, shapes, node, core).core)
    ensures CoreWeight(core) <= CoreWeight(ReadScalar(env, shapes, node, core).core)
  {
    var c := ReadScalar(env, shapes, node, core).core;
    CommitTiles(env, core.values, core.position, c.position, c.values[|core.values|].value);
  }

  lemma TextIsAccounted(env: Environment, node: nat, core: Core)
    requires ValidEnvironment(env) && Accounted(env, core) && ReadText(env, node, core).Next?
    ensures Accounted(env, ReadText(env, node, core).core)
    ensures CoreWeight(core) <= CoreWeight(ReadText(env, node, core).core)
  {
    var c := ReadText(env, node, core).core;
    CommitTiles(env, core.values, core.position, c.position, c.values[|core.values|].value);
  }

  lemma FieldIsAccounted(env: Environment, shapes: Shapes, field: Field, core: Core)
    requires ValidEnvironment(env) && Accounted(env, core) && ReadField(env, shapes, field, core).Next?
    ensures Accounted(env, ReadField(env, shapes, field, core).core)
    ensures CoreWeight(core) <= CoreWeight(ReadField(env, shapes, field, core).core)
  {
    match field
    case ScalarField(node) => ScalarIsAccounted(env, shapes, node, core);
    case TextField(node) => TextIsAccounted(env, node, core);
    case RidField(node) => ScalarIsAccounted(env, shapes, node, core);
  }

  lemma {:induction false} FieldsAreAccounted(env: Environment, shapes: Shapes, fields: seq<Field>, core: Core)
    requires ValidEnvironment(env) && Accounted(env, core) && ReadFields(env, shapes, fields, core).Next?
    ensures Accounted(env, ReadFields(env, shapes, fields, core).core)
    ensures CoreWeight(core) <= CoreWeight(ReadFields(env, shapes, fields, core).core)
    decreases fields
  {
    if fields != [] {
      FieldIsAccounted(env, shapes, fields[0], core);
      FieldsAreAccounted(env, shapes, fields[1..], ReadField(env, shapes, fields[0], core).core);
    }
  }
}
