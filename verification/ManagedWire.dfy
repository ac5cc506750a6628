/** Managed payloads against their bytes: each part is parsed exactly where the bytes spell it within the limits, and
    then to what they spell (src/io/serialized_file_managed_values.c). */
module ManagedWire {
  import opened Bytes
  import opened WireWords
  import Meta = MetadataReader
  import opened Managed

  // ----- What the bytes say -----

  /** Padding to the next multiple of four. */
  predicate PaddingFits(position: nat, size: nat) {
    size < 4 && (position + size) % 4 == 0
  }

  function WidthIn(width: Width): nat {
    if width.One? then 1 else if width.Four? then 4 else 8
  }

  /** A scalar of 1, 4 or 8 bytes, least significant byte first. */
  predicate ScalarSpelled(bytes: seq<byte>, v: Value, offset: nat, width: nat) {
    && v.Scalar? && v.scalar == Meta.Span(offset, width) && offset + width <= |bytes|
    && bytes[offset..offset + width] == ToLittleEndian(v.bits, width)
    && (width == 1 ==> v.bits < 0x100) && (width == 4 ==> v.bits < 0x1_0000_0000)
  }

  /** A length of four bytes, as many bytes of text, and padding. */
  predicate TextSpelled(bytes: seq<byte>, v: Value, offset: nat) {
    && v.Text? && offset + 4 + v.text.size + v.padding.size <= |bytes| && v.text.size <= 0x7FFF_FFFF
    && v.length == Meta.Span(offset, 4) && bytes[offset..offset + 4] == ToLittleEndian(v.text.size, 4)
    && v.text == Meta.Span(offset + 4, v.text.size)
    && v.padding == Meta.Span(offset + 4 + v.text.size, v.padding.size)
    && PaddingFits(offset + 4 + v.text.size, v.padding.size)
  }

  predicate ScalarReads(env: Environment, shapes: Shapes, node: nat, at: Core, next: Core) {
    var w, aligned := WidthIn(shapes(node).width), shapes(node).aligned;
    var spelled :=
      && at.position + w <= next.position <= env.end && |next.values| == |at.values| + 1
      && var v, pad := next.values[|at.values|].value, next.position - at.position - w;
         && ScalarSpelled(env.bytes, v, at.position, w) && v.node == node && v.row == at.row
         && v.alignment == (if aligned then Some(Meta.Span(at.position + w, pad)) else None)
         && (if aligned then PaddingFits(at.position + w, pad) && at.padding + pad <= env.limits.maxPadding
             else pad == 0)
         && |at.values| < env.limits.maxValues && w <= env.limits.maxScalar && at.scalars + w <= env.limits.maxScalars
         && next == at.(position := next.position, scalars := at.scalars + w, padding := at.padding + pad,
                        spans := at.spans + if aligned then 2 else 1,
                        values := at.values + [Meta.Row(v, Meta.Span(at.position, w + pad))]);
    spelled
  }

  predicate TextReads(env: Environment, node: nat, at: Core, next: Core) {
    var spelled :=
      && at.position <= next.position <= env.end && |next.values| == |at.values| + 1
      && var v := next.values[|at.values|].value;
         && TextSpelled(env.bytes, v, at.position) && v.node == node && v.row == at.row
         && next.position == at.position + 4 + v.text.size + v.padding.size
         && |at.values| < env.limits.maxValues && v.text.size <= env.limits.maxString
         && at.strings + v.text.size <= env.limits.maxStrings && at.padding + v.padding.size <= env.limits.maxPadding
         && next == at.(position := next.position, strings := at.strings + v.text.size,
                        padding := at.padding + v.padding.size, spans := at.spans + 3,
                        values := at.values + [Meta.Row(v, Meta.Span(at.position, next.position - at.position))]);
    spelled
  }

  /** A scalar that is also registered as a slot. */
  predicate SlotReads(env: Environment, shapes: Shapes, node: nat, at: Core, next: Core) {
    && ScalarReads(env, shapes, node, at, next.(slots := at.slots)) && |at.slots| < env.limits.maxSlots
    && next.slots == at.slots + [Slot(|at.values|, at.row, next.values[|at.values|].value.bits)]
  }

  predicate FieldReads(env: Environment, shapes: Shapes, field: Field, at: Core, next: Core) {
    match field
    case ScalarField(node) => ScalarReads(env, shapes, node, at, next)
    case TextField(node) => TextReads(env, node, at, next)
    case RidField(node) => SlotReads(env, shapes, node, at, next)
  }

  /** One field behind the other. */
  ghost predicate FieldsRead(env: Environment, shapes: Shapes, fields: seq<Field>, at: Core, next: Core)
    decreases |fields|
  {
    if fields == [] then at == next
    else
      exists m: Core {:trigger FieldReads(env, shapes, fields[0], at, m)} ::
        FieldReads(env, shapes, fields[0], at, m) && FieldsRead(env, shapes, fields[1..], m, next)
  }

  // ----- The parser finds exactly that -----

  lemma BitsAreSpelled(b: seq<byte>, bits: u64)
    requires |b| == 1 || |b| == 4 || |b| == 8
    ensures RawBits(b) == bits
            <==> b == ToLittleEndian(bits, |b|) && (|b| == 1 ==> bits < 0x100) && (|b| == 4 ==> bits < 0x1_0000_0000)
  {
    PowersOf256();
    if |b| == 1 {
      ByteIsSpelled(b, bits);
    } else if |b| == 4 {
      Spells32(b, false);
      if b == ToLittleEndian(bits, 4) && bits < 0x1_0000_0000 {
        SpelledOnce(bits, Decode32(b, false), 4, false);
      }
    } else {
      Spells64(b, false);
      if b == ToLittleEndian(bits, 8) {
        SpelledOnce(bits, Decode64(b, false), 8, false);
      }
    }
  }

  lemma ByteIsSpelled(b: seq<byte>, bits: nat)
    requires |b| == 1
    ensures b[0] as int == bits <==> b == ToLittleEndian(bits, 1) && bits < 0x100
  {
    assert ToLittleEndian(bits, 1) == [(bits % 256) as byte];
  }

  lemma PaddingIsExact(position: nat, size: nat)
    ensures PaddingFits(position, size) <==> size == PaddingWidth(position)
  {
  }

  lemma ScalarIsSpelled(env: Environment, shapes: Shapes, node: nat, at: Core)
    requires ValidEnvironment(env) && ReadScalar(env, shapes, node, at).Next?
    ensures ScalarReads(env, shapes, node, at, ReadScalar(env, shapes, node, at).core)
  {
    var w, next := WidthIn(shapes(node).width), ReadScalar(env, shapes, node, at).core;
    BitsAreSpelled(env.bytes[at.position..at.position + w], next.values[|at.values|].value.bits);
    PaddingIsExact(at.position + w, PaddingWidth(at.position + w));
  }

  /** The scalar and its padding, once the limits are checked. */
  lemma SpelledScalarBody(env: Environment, shape: NodeShape, node: nat, v: Value, pad: nat, at: Core)
    requires ValidEnvironment(env) && v.Scalar? && v.node == node && v.row == at.row
    requires var w := WidthIn(shape.width);
             && at.position + w + pad <= env.end && v.scalar == Meta.Span(at.position, w)
             && RawBits(env.bytes[at.position..at.position + w]) == v.bits
             && v.alignment == (if shape.aligned then Some(Meta.Span(at.position + w, pad)) else None)
             && pad == (if shape.aligned then PaddingWidth(at.position + w) else 0)
             && (shape.aligned ==> at.padding + pad <= env.limits.maxPadding)
    ensures var w := WidthIn(shape.width);
            ReadScalarBody(env, shape, node, at)
            == Next(at.(position := at.position + w + pad, padding := at.padding + pad,
                        spans := at.spans + if shape.aligned then 2 else 1,
                        values := at.values + [Meta.Row(v, Meta.Span(at.position, w + pad))]))
  {
    assert WidthOf(shape.width) == WidthIn(shape.width);
  }

  lemma SpelledScalarValue(env: Environment, shapes: Shapes, node: nat, v: Value, w: nat, pad: nat, at: Core)
    requires ValidEnvironment(env) && w == WidthIn(shapes(node).width)
    requires ScalarSpelled(env.bytes, v, at.position, w) && v.node == node && v.row == at.row
    requires v.alignment == (if shapes(node).aligned then Some(Meta.Span(at.position + w, pad)) else None)
    requires pad == if shapes(node).aligned then PaddingWidth(at.position + w) else 0
    requires at.position + w + pad <= env.end && |at.values| < env.limits.maxValues && w <= env.limits.maxScalar
    requires at.scalars + w <= env.limits.maxScalars
      && (shapes(node).aligned ==> at.padding + pad <= env.limits.maxPadding)
    ensures ReadScalar(env, shapes, node, at)
            == Next(at.(position := at.position + w + pad, scalars := at.scalars + w, padding := at.padding + pad,
                        spans := at.spans + if shapes(node).aligned then 2 else 1,
                        values := at.values + [Meta.Row(v, Meta.Span(at.position, w + pad))]))
  {
    BitsAreSpelled(env.bytes[at.position..at.position + w], v.bits);
    SpelledScalarBody(env, shapes(node), node, v, pad, at.(scalars := at.scalars + w));
  }

  lemma SpelledScalarReads(env: Environment, shapes: Shapes, node: nat, at: Core, next: Core)
    requires ValidEnvironment(env) && ScalarReads(env, shapes, node, at, next)
    ensures ReadScalar(env, shapes, node, at) == Next(next)
  {
    var w := WidthIn(shapes(node).width);
    var pad := next.position - at.position - w;
    PaddingIsExact(at.position + w, pad);
    SpelledScalarValue(env, shapes, node, next.values[|at.values|].value, w, pad, at);
  }

  lemma TextIsSpelled(env: Environment, node: nat, at: Core)
    requires ValidEnvironment(env) && ReadText(env, node, at).Next?
    ensures TextReads(env, node, at, ReadText(env, node, at).core)
  {
    var next := ReadText(env, node, at).core;
    var size := next.values[|at.values|].value.text.size;
    BitsAreSpelled(env.bytes[at.position..at.position + 4], size);
    PaddingIsExact(at.position + 4 + size, PaddingWidth(at.position + 4 + size));
  }

  /** The text and its padding, once the length is read. */
  lemma SpelledBodyReads(env: Environment, node: nat, start: nat, v: Value, at: Core)
    requires v.Text? && v.node == node && v.row == at.row
    requires v.text == Meta.Span(at.position, v.text.size)
    requires v.padding == Meta.Span(at.position + v.text.size, PaddingWidth(at.position + v.text.size))
    requires start <= at.position && at.position + v.text.size + v.padding.size <= env.end
    requires at.padding + v.padding.size <= env.limits.maxPadding
    ensures var end := at.position + v.text.size + v.padding.size;
            ReadTextBody(env, node, start, v.length, v.text.size, at)
            == Next(at.(position := end, padding := at.padding + v.padding.size, spans := at.spans + 2,
                        values := at.values + [Meta.Row(v, Meta.Span(start, end - start))]))
  {
  }

  lemma LengthIsRead(env: Environment, position: nat, size: nat)
    requires ValidEnvironment(env) && position + 4 <= env.end && size <= 0x7FFF_FFFF
    requires env.bytes[position..position + 4] == ToLittleEndian(size, 4)
    ensures Decode32(SpanBytes(env, Meta.Span(position, 4)), false) == size
  {
    BitsAreSpelled(env.bytes[position..position + 4], size);
  }

  /** A string whose length is read and within the limits. */
  lemma PastLength(env: Environment, node: nat, size: nat, at: Core, behind: Core)
    requires ValidEnvironment(env) && at.position + 4 <= env.end && |at.values| < env.limits.maxValues
    requires Decode32(SpanBytes(env, Meta.Span(at.position, 4)), false) == size && size <= 0x7FFF_FFFF
    requires size <= env.limits.maxString && at.strings + size <= env.limits.maxStrings
    requires behind == at.(position := at.position + 4, spans := at.spans + 1, strings := at.strings + size)
    ensures ReadText(env, node, at)
            == ReadTextBody(env, node, at.position, Meta.Span(at.position, 4), size, behind)
  {
  }

  lemma SpelledTextValue(env: Environment, node: nat, v: Value, at: Core, behind: Core)
    requires ValidEnvironment(env) && TextSpelled(env.bytes, v, at.position) && v.node == node && v.row == at.row
    requires behind == at.(position := at.position + 4, spans := at.spans + 1, strings := at.strings + v.text.size)
    requires behind.position + v.text.size + v.padding.size <= env.end
    requires |at.values| < env.limits.maxValues && v.text.size <= env.limits.maxString
    requires at.strings + v.text.size <= env.limits.maxStrings && at.padding + v.padding.size <= env.limits.maxPadding
    ensures var end := behind.position + v.text.size + v.padding.size;
            ReadText(env, node, at)
            == Next(behind.(position := end, padding := at.padding + v.padding.size, spans := behind.spans + 2,
                            values := at.values + [Meta.Row(v, Meta.Span(at.position, end - at.position))]))
  {
    LengthIsRead(env, at.position, v.text.size);
    PastLength(env, node, v.text.size, at, behind);
    PaddingIsExact(behind.position + v.text.size, v.padding.size);
    SpelledBodyReads(env, node, at.position, v, behind);
  }

  lemma SpelledTextReads(env: Environment, node: nat, at: Core, next: Core)
    requires ValidEnvironment(env) && TextReads(env, node, at, next)
    ensures ReadText(env, node, at) == Next(next)
  {
    var v := next.values[|at.values|].value;
    SpelledTextValue(env, node, v, at,
                     at.(position := at.position + 4, spans := at.spans + 1, strings := at.strings + v.text.size));
  }

  lemma SlotReadsExactly(env: Environment, shapes: Shapes, node: nat, at: Core, next: Core)
    requires ValidEnvironment(env)
    ensures ReadSlot(env, shapes, node, at) == Next(next) <==> SlotReads(env, shapes, node, at, next)
  {
    if ReadSlot(env, shapes, node, at) == Next(next) {
      ScalarIsSpelled(env, shapes, node, at);
      ScalarIsCommitted(env, shapes, node, at);
      assert ReadScalar(env, shapes, node, at).core == next.(slots := at.slots);
    }
    if SlotReads(env, shapes, node, at, next) {
      SpelledScalarReads(env, shapes, node, at, next.(slots := at.slots));
    }
  }

  lemma FieldReadsExactly(env: Environment, shapes: Shapes, field: Field, at: Core, next: Core)
    requires ValidEnvironment(env)
    ensures ReadField(env, shapes, field, at) == Next(next) <==> FieldReads(env, shapes, field, at, next)
  {
    match field
    case ScalarField(node) => ScalarReadsExactly(env, shapes, node, at, next);
    case TextField(node) =>
      if ReadText(env, node, at) == Next(next) {
        TextIsSpelled(env, node, at);
      }
      if TextReads(env, node, at, next) {
        SpelledTextReads(env, node, at, next);
      }
    case RidField(node) => SlotReadsExactly(env, shapes, node, at, next);
  }

  lemma ScalarReadsExactly(env: Environment, shapes: Shapes, node: nat, at: Core, next: Core)
    requires ValidEnvironment(env)
    ensures ReadScalar(env, shapes, node, at) == Next(next) <==> ScalarReads(env, shapes, node, at, next)
  {
    if ReadScalar(env, shapes, node, at) == Next(next) {
      ScalarIsSpelled(env, shapes, node, at);
    }
    if ScalarReads(env, shapes, node, at, next) {
      SpelledScalarReads(env, shapes, node, at, next);
    }
  }

  /** Any list of fields is read exactly as it is spelled. */
  lemma {:induction false} FieldsReadExactly(env: Environment, shapes: Shapes, fields: seq<Field>, at: Core, next: Core)
    requires ValidEnvironment(env)
    ensures ReadFields(env, shapes, fields, at) == Next(next) <==> FieldsRead(env, shapes, fields, at, next)
    decreases |fields|
  {
    if fields != [] {
      if ReadFields(env, shapes, fields, at) == Next(next) {
        var m := ReadField(env, shapes, fields[0], at).core;
        FieldReadsExactly(env, shapes, fields[0], at, m);
        FieldsReadExactly(env, shapes, fields[1..], m, next);
      }
      if FieldsRead(env, shapes, fields, at, next) {
        var m: Core :| FieldReads(env, shapes, fields[0], at, m) && FieldsRead(env, shapes, fields[1..], m, next);
        FieldReadsExactly(env, shapes, fields[0], at, m);
        FieldsReadExactly(env, shapes, fields[1..], m, next);
      }
    }
  }

  // ----- What a list of fields leaves -----

  /** Fields only append: one value each, and a slot for every identifier. */
  predicate Appends(before: Core, after: Core) {
    && before.values <= after.values && before.slots <= after.slots && before.rows == after.rows
    && before.row == after.row && before.position <= after.position && before.extra == after.extra
  }

  lemma {:induction false} FieldsAppend(env: Environment, shapes: Shapes, fields: seq<Field>, at: Core, next: Core)
    requires FieldsRead(env, shapes, fields, at, next)
    ensures Appends(at, next) && |next.values| == |at.values| + |fields|
    decreases |fields|
  {
    if fields != [] {
      var m: Core :| FieldReads(env, shapes, fields[0], at, m) && FieldsRead(env, shapes, fields[1..], m, next);
      FieldAppends(env, shapes, fields[0], at, m);
      FieldsAppend(env, shapes, fields[1..], m, next);
    }
  }

  lemma FieldAppends(env: Environment, shapes: Shapes, field: Field, at: Core, next: Core)
    requires FieldReads(env, shapes, field, at, next)
    ensures Appends(at, next) && |next.values| == |at.values| + 1
  {
  }
}
