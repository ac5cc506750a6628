/** Parsed values against the bytes they were parsed from: which bytes spell which value of a schema, and that the
    parser of src/io/typetree.c finds exactly the value that is spelled. */
module TypeTreeWire {
  import opened Bytes
  import opened WireWords
  import opened TypeTreeValues
  import opened TypeTreeSchema
  import opened TypeTreeParser
  import opened TypeTreeForms

  // ----- Scalars -----

  datatype Kind = SignedKind | UnsignedKind | FloatKind

  /** The scalar types, each with its width and kind. */
  function Rule(t: seq<byte>): Option<(nat, Kind)> {
    if t == Ascii("SInt8") then Some((1, SignedKind))
    else if t == Ascii("UInt8") || t == Ascii("bool") || t == Ascii("char") then Some((1, UnsignedKind))
    else if t == Ascii("SInt16") || t == Ascii("short") then Some((2, SignedKind))
    else if t == Ascii("UInt16") || t == Ascii("unsigned short") then Some((2, UnsignedKind))
    else if t == Ascii("SInt32") || t == Ascii("int") then Some((4, SignedKind))
    else if t == Ascii("UInt32") || t == Ascii("unsigned int") || t == Ascii("RenderingLayerMask")
            || t == Ascii("Type*") || t == Ascii("BitField") then Some((4, UnsignedKind))
    else if t == Ascii("SInt64") || t == Ascii("long long") then Some((8, SignedKind))
    else if t == Ascii("UInt64") || t == Ascii("unsigned long long") || t == Ascii("FileSize")
    then Some((8, UnsignedKind))
    else if t == Ascii("float") then Some((4, FloatKind))
    else if t == Ascii("double") then Some((8, FloatKind))
    else None
  }

  /** The bytes of a scalar: two's complement, unsigned, or the image of a float, which a short one widens to. */
  ghost predicate ScalarSpelled(b: seq<byte>, width: nat, kind: Kind, bigEndian: bool, d: Data)
    requires |b| == width > 0
  {
    var spelled := match kind
    case SignedKind =>
      && d.SignedVal? && -128 * Pow256(width - 1) <= d.n < 128 * Pow256(width - 1)
      && b == Spelled(if d.n < 0 then d.n + Pow256(width) else d.n, width, bigEndian)
    case UnsignedKind => d.UnsignedVal? && d.u < Pow256(width) && b == Spelled(d.u, width, bigEndian)
    case FloatKind =>
      && d.FloatVal?
      && if width == 8 then b == Spelled(d.bits, 8, bigEndian) else Widens(b, width, bigEndian, WidenFloat, d.bits);
    spelled
  }

  /** Some short word is spelled, and widening it gives the long one. */
  ghost predicate Widens(b: seq<byte>, width: nat, bigEndian: bool, widen: u32 -> u64, bits: u64) {
    exists word: u32 {:trigger widen(word)} :: b == Spelled(word, width, bigEndian) && widen(word) == bits
  }

  // ----- Values -----

  /** Bit 14 of the meta flags. */
  predicate Flagged(node: Node) {
    node.metaFlags % 0x8000 >= 0x4000
  }

  /** Where a value ends whose bytes end at `from`: there, or at the next multiple of four. */
  predicate EndsAt(align: bool, from: nat, end: nat) {
    if align then from <= end < from + 4 && end % 4 == 0 else end == from
  }

  predicate IsLeaf(nodes: seq<Node>, i: nat)
    requires i < |nodes|
  {
    i + 1 == |nodes| || nodes[i + 1].level <= nodes[i].level
  }

  /** The bytes from `start` to `end` spell `v` as the value of node `i`. */
  ghost predicate Written(nodes: seq<Node>, i: nat, wire: Wire, mode: Mode, suppress: bool, v: Value, start: nat,
                          end: nat)
    requires i < |nodes|
    decreases |nodes| - i, 2, 0
  {
    var node := nodes[i];
    && v.name == node.name && v.typeName == node.typeName && end <= |wire.data|
    && if IsLeaf(nodes, i) then LeafWritten(node, wire, suppress, v.data, start, end)
       else if node.typeName == Ascii("string") then StringWritten(wire, v.data, start, end)
       else if nodes[i + 1].typeName == Ascii("Array") || nodes[i + 1].name == Ascii("Array")
       then ArrayWritten(nodes, i, wire, mode, suppress, v.data, start, end)
       else
         && v.data.StructVal?
         && exists m {:trigger MembersWritten(nodes, node.level, i + 1, wire, mode, v.data.members, start, m)} ::
              && MembersWritten(nodes, node.level, i + 1, wire, mode, v.data.members, start, m)
              && EndsAt(!suppress && Flagged(node), m, end)
  }

  ghost predicate LeafWritten(node: Node, wire: Wire, suppress: bool, d: Data, start: nat, end: nat) {
    match Rule(node.typeName)
    case None => false
    case Some((width, kind)) =>
      var written :=
        && start + width <= |wire.data| && width > 0
        && ScalarSpelled(wire.data[start..start + width], width, kind, wire.bigEndian, d)
        && EndsAt(!suppress && Flagged(node), start + width, end);
      written
  }

  /** A length, the text, and padding to a multiple of four. */
  ghost predicate StringWritten(wire: Wire, d: Data, start: nat, end: nat) {
    && d.StringVal? && start + 4 + |d.text| <= |wire.data| && |d.text| <= 0xFFFF_FFFF
    && wire.data[start..start + 4] == Spelled(|d.text|, 4, wire.bigEndian)
    && wire.data[start + 4..start + 4 + |d.text|] == d.text
    && EndsAt(true, start + 4 + |d.text|, end)
  }

  /** Arrays of UInt8 are kept as bytes when a packing mode is chosen. */
  predicate KeptAsBytes(nodes: seq<Node>, i: nat, mode: Mode)
    requires i < |nodes|
  {
    mode != Expanded && IsLeaf(nodes, i) && nodes[i].typeName == Ascii("UInt8") && nodes[i].byteSize == 1
  }

  predicate ArrayFlagged(nodes: seq<Node>, i: nat, suppress: bool)
    requires i + 3 < |nodes|
  {
    Flagged(nodes[i + 1]) || Flagged(nodes[i + 3]) || (!suppress && Flagged(nodes[i]))
  }

  /** A count, and then as many elements of the data node, each without its own alignment. */
  ghost predicate ArrayWritten(nodes: seq<Node>, i: nat, wire: Wire, mode: Mode, suppress: bool, d: Data, start: nat,
                               end: nat)
    requires i < |nodes|
    decreases |nodes| - i, 1, 0
  {
    && i + 3 < |nodes| && start + 4 <= |wire.data|
    && if KeptAsBytes(nodes, i + 3, mode)
       then BytesWritten(wire, mode, d, start, ArrayFlagged(nodes, i, suppress), end)
       else
         && d.ArrayVal? && |d.elements| <= INT_MAX
         && wire.data[start..start + 4] == Spelled(|d.elements|, 4, wire.bigEndian)
         && exists m {:trigger ElementsWritten(nodes, i + 3, wire, mode, d.elements, start + 4, m)} ::
              && ElementsWritten(nodes, i + 3, wire, mode, d.elements, start + 4, m)
              && EndsAt(ArrayFlagged(nodes, i, suppress), m, end)
  }

  /** A count and as many bytes. */
  ghost predicate BytesWritten(wire: Wire, mode: Mode, d: Data, start: nat, align: bool, end: nat)
    requires start + 4 <= |wire.data|
  {
    var written :=
      && d.PackedVal? && start + 4 + |d.bytes| <= |wire.data| && |d.bytes| <= INT_MAX
      && d.owned == (mode == PackedCopy && d.bytes != [])
      && wire.data[start..start + 4] == Spelled(|d.bytes|, 4, wire.bigEndian)
      && wire.data[start + 4..start + 4 + |d.bytes|] == d.bytes
      && EndsAt(align, start + 4 + |d.bytes|, end);
    written
  }

  /** One element after the other. */
  ghost predicate ElementsWritten(nodes: seq<Node>, data: nat, wire: Wire, mode: Mode, vs: seq<Value>, start: nat,
                                  end: nat)
    requires data < |nodes|
    decreases |nodes| - data, 3, |vs|
  {
    if vs == [] then start == end
    else
      exists m {:trigger Written(nodes, data, wire, mode, true, vs[0], start, m)} ::
        && Written(nodes, data, wire, mode, true, vs[0], start, m)
        && ElementsWritten(nodes, data, wire, mode, vs[1..], m, end)
  }

  /** One member for each subtree from `index` on, until a node that is not deeper than `level`. */
  ghost predicate MembersWritten(nodes: seq<Node>, level: nat, index: nat, wire: Wire, mode: Mode, vs: seq<Value>,
                                 start: nat, end: nat)
    requires index <= |nodes|
    decreases |nodes| - index, 3, 0
  {
    if index == |nodes| || nodes[index].level <= level then vs == [] && start == end
    else
      && vs != []
      && exists m {:trigger Written(nodes, index, wire, mode, false, vs[0], start, m)} ::
           && Written(nodes, index, wire, mode, false, vs[0], start, m)
           && MembersWritten(nodes, level, SubtreeEnd(nodes, index), wire, mode, vs[1..], m, end)
  }

  // ----- The scalar rules -----

  predicate SignedLetter(b: byte) {
    b == 83 || b == 105 || b == 115 || b == 108
  }

  predicate UnsignedLetter(b: byte) {
    b == 85 || b == 117 || b == 70 || b == 82 || b == 84 || b == 66 || b == 98 || b == 99
  }

  /** The first letters tell the kinds of scalars apart. */
  lemma SignedLetters(t: seq<byte>)
    requires IsSignedInteger(t)
    ensures t != [] && SignedLetter(t[0])
  {
  }

  lemma UnsignedLetters(t: seq<byte>)
    requires IsUnsignedInteger(t)
    ensures t != [] && UnsignedLetter(t[0])
  {
    if t[0] == 85 {
    } else if t[0] == 117 {
    } else {
      OtherUnsignedLetters(t);
    }
  }

  lemma OtherUnsignedLetters(t: seq<byte>)
    requires t == Ascii("FileSize") || t == Ascii("RenderingLayerMask") || t == Ascii("Type*") || t == Ascii("BitField")
             || t == Ascii("bool") || t == Ascii("char")
    ensures UnsignedLetter(t[0])
  {
  }

  lemma FloatLetters(t: seq<byte>)
    ensures t == Ascii("float") ==> t[0] == 102
    ensures t == Ascii("double") ==> t[0] == 100
  {
  }

  /** The kind of a type and its width, in terms of the lists of type names the parser consults. */
  predicate KindFits(t: seq<byte>, width: nat, kind: Kind) {
    && (kind == SignedKind <==> IsSignedInteger(t)) && (kind == UnsignedKind <==> IsUnsignedInteger(t))
    && (kind == FloatKind <==> t == Ascii("float") || t == Ascii("double"))
    && (t == Ascii("float") ==> width == 4) && (t == Ascii("double") ==> width == 8)
  }

  lemma RulesAgree(t: seq<byte>)
    ensures match Rule(t)
            case None => ScalarWireSize(t) == 0
            case Some((width, kind)) => ScalarWireSize(t) == width && IsWidth(width) && KindFits(t, width, kind)
  {
    if IsSignedInteger(t) {
      SignedLetters(t);
    }
    if IsUnsignedInteger(t) {
      UnsignedLetters(t);
    }
    FloatLetters(t);
  }

  predicate IsWidth(width: nat) {
    width == 1 || width == 2 || width == 4 || width == 8
  }

  lemma WordIsSpelled(wire: Wire, position: nat, width: nat)
    requires IsWidth(width) && position + width <= |wire.data|
    ensures Spelled(WordAt(wire, position, width), width, wire.bigEndian) == wire.data[position..position + width]
    ensures WordAt(wire, position, width) < Pow256(width)
  {
    var b := wire.data[position..position + width];
    PowersOf256();
    if width == 1 {
      assert ToLittleEndian(b[0] as nat, 1) == [b[0]] == b;
      assert Reversed([b[0]]) == [b[0]];
    } else if width == 2 {
      Spells16(b, wire.bigEndian);
    } else if width == 4 {
      Spells32(b, wire.bigEndian);
    } else {
      Spells64(b, wire.bigEndian);
    }
  }

  lemma SignedInHalves(word: u64, width: nat)
    requires IsWidth(width) && word < Pow256(width)
    ensures Signed(word, width) == if word < 128 * Pow256(width - 1) then word else word - Pow256(width)
    ensures Pow256(width) == 256 * Pow256(width - 1)
  {
    PowersOf256();
  }

  /** The parser reads the scalar that is spelled, and no other. */
  lemma ScalarIsSpelled(t: seq<byte>, width: nat, kind: Kind, word: u64, bigEndian: bool, d: Data)
    requires Rule(t) == Some((width, kind)) && IsWidth(width) && word < Pow256(width)
    ensures ScalarData(t, width, word) == Some(d) <==>
              ScalarSpelled(Spelled(word, width, bigEndian), width, kind, bigEndian, d)
  {
    RulesAgree(t);
    ScalarByKind(t, width, kind, word);
    KindIsSpelled(width, kind, word, bigEndian, d);
  }

  lemma KindIsSpelled(width: nat, kind: Kind, word: u64, bigEndian: bool, d: Data)
    requires IsWidth(width) && word < Pow256(width)
    requires (width == 4 ==> word < 0x1_0000_0000) && (kind == FloatKind ==> width == 4 || width == 8)
    ensures ScalarSpelled(Spelled(word, width, bigEndian), width, kind, bigEndian, d) <==>
              d == DataOf(width, kind, word)
  {
    match kind
    case SignedKind =>
      if d.SignedVal? {
        SignedIsSpelled(word, width, bigEndian, d.n);
      }
    case UnsignedKind =>
      if d.UnsignedVal? {
        UnsignedIsSpelled(word, width, bigEndian, d.u);
      }
    case FloatKind =>
      if d.FloatVal? && width == 8 {
        UnsignedIsSpelled(word, 8, bigEndian, d.bits);
      } else if d.FloatVal? {
        FloatIsSpelled(word, bigEndian, WidenFloat, d.bits);
      }
  }

  lemma ScalarByKind(t: seq<byte>, width: nat, kind: Kind, word: u64)
    requires IsWidth(width) && KindFits(t, width, kind) && word < Pow256(width)
    ensures (width == 4 ==> word < 0x1_0000_0000) && (kind == FloatKind ==> width == 4 || width == 8)
    ensures ScalarData(t, width, word) == Some(DataOf(width, kind, word))
  {
    PowersOf256();
    assert width == 4 ==> word % 0x1_0000_0000 == word;
    if kind == FloatKind {
      FloatByWidth(t, width, word);
    }
  }

  /** What a word of this kind means. */
  function DataOf(width: nat, kind: Kind, word: u64): Data
    requires IsWidth(width) && (width == 4 ==> word < 0x1_0000_0000) && (kind == FloatKind ==> width == 4 || width == 8)
  {
    match kind
    case SignedKind => SignedVal(Signed(word, width))
    case UnsignedKind => UnsignedVal(word)
    case FloatKind => FloatVal(if width == 8 then word else WidenFloat(word))
  }

  lemma FloatByWidth(t: seq<byte>, width: nat, word: u64)
    requires KindFits(t, width, FloatKind) && (width == 4 ==> word < 0x1_0000_0000)
    ensures width == 4 || width == 8
    ensures ScalarData(t, width, word) == Some(FloatVal(if width == 8 then word else WidenFloat(word)))
  {
    assert width == 4 ==> word % 0x1_0000_0000 == word;
  }

  lemma UnsignedIsSpelled(word: u64, width: nat, bigEndian: bool, u: u64)
    requires IsWidth(width) && word < Pow256(width)
    ensures word == u <==> u < Pow256(width) && Spelled(word, width, bigEndian) == Spelled(u, width, bigEndian)
  {
    if u < Pow256(width) && Spelled(word, width, bigEndian) == Spelled(u, width, bigEndian) {
      SpelledOnce(word, u, width, bigEndian);
    }
  }

  lemma SignedIsSpelled(word: u64, width: nat, bigEndian: bool, n: i64)
    requires IsWidth(width) && word < Pow256(width)
    ensures Signed(word, width) == n <==>
              && -128 * Pow256(width - 1) <= n < 128 * Pow256(width - 1)
              && Spelled(word, width, bigEndian) == Spelled(if n < 0 then n + Pow256(width) else n, width, bigEndian)
  {
    SignedInHalves(word, width);
    var image := if n < 0 then n + Pow256(width) else n;
    if 0 <= image < Pow256(width) && Spelled(word, width, bigEndian) == Spelled(image, width, bigEndian) {
      SpelledOnce(word, image, width, bigEndian);
    }
  }

  lemma FloatIsSpelled(word: u32, bigEndian: bool, widen: u32 -> u64, bits: u64)
    ensures widen(word) == bits <==> Widens(Spelled(word, 4, bigEndian), 4, bigEndian, widen, bits)
  {
    PowersOf256();
    if w: u32 :| Spelled(word, 4, bigEndian) == Spelled(w, 4, bigEndian) && widen(w) == bits {
      SpelledOnce(word, w, 4, bigEndian);
    }
  }

  // ----- What is parsed is spelled -----

  lemma AlignedEnds(position: nat, wire: Wire, align: bool, r: Outcome, value: Value, index: nat)
    requires r == AlignTail(value, index, position, wire, align)
    ensures r.Success? ==> r.value == value && EndsAt(align, position, r.position)
    ensures r.Success? && position <= |wire.data| ==> r.position <= |wire.data|
  {
  }

  lemma FlagIsBit14(node: Node)
    ensures WantsAlignment(node.metaFlags) <==> Flagged(node)
  {
  }

  /** What a parsed leaf was read from: its word and its alignment. */
  lemma LeafInParts(node: Node, i: nat, wire: Wire, start: nat, suppress: bool)
    requires ParseLeaf(node, i, wire, start, suppress).Success? && IsWidth(node.byteSize)
    ensures var r := ParseLeaf(node, i, wire, start, suppress);
            && start + node.byteSize <= |wire.data|
            && ScalarData(node.typeName, node.byteSize, WordAt(wire, start, node.byteSize)) == Some(r.value.data)
            && r == AlignTail(r.value, i + 1, start + node.byteSize, wire,
                              !suppress && WantsAlignment(node.metaFlags))
  {
  }

  lemma LeafEnds(node: Node, i: nat, wire: Wire, suppress: bool, v: Value, from: nat, r: Outcome)
    requires r.Success? && from <= |wire.data|
    requires r == AlignTail(v, i, from, wire, !suppress && WantsAlignment(node.metaFlags))
    ensures EndsAt(!suppress && Flagged(node), from, r.position) && r.position <= |wire.data|
  {
    var align := !suppress && WantsAlignment(node.metaFlags);
    AlignedEnds(from, wire, align, r, v, i);
    assert align == (!suppress && Flagged(node)) by {
      FlagIsBit14(node);
    }
  }

  lemma LeafIsWritten(node: Node, i: nat, wire: Wire, start: nat, suppress: bool, width: nat, kind: Kind)
    requires Rule(node.typeName) == Some((width, kind)) && node.byteSize == width && IsWidth(width)
    requires ParseLeaf(node, i, wire, start, suppress).Success?
    ensures var r := ParseLeaf(node, i, wire, start, suppress);
            LeafWritten(node, wire, suppress, r.value.data, start, r.position) && r.position <= |wire.data|
  {
    var word, r := WordAt(wire, start, width), ParseLeaf(node, i, wire, start, suppress);
    LeafInParts(node, i, wire, start, suppress);
    LeafEnds(node, i + 1, wire, suppress, r.value, start + width, r);
    WordIsSpelled(wire, start, width);
    ScalarIsSpelled(node.typeName, width, kind, word, wire.bigEndian, r.value.data);
  }

  lemma StringIsWritten(node: Node, next: nat, wire: Wire, start: nat)
    requires ParseString(node, next, wire, start).Success?
    ensures var r := ParseString(node, next, wire, start);
            StringWritten(wire, r.value.data, start, r.position) && r.position <= |wire.data|
  {
    WordIsSpelled(wire, start, 4);
  }

  /** Whatever the parser finds is spelled by the bytes it consumed. */
  lemma {:induction false} ParsedIsWritten(nodes: seq<Node>, i: nat, wire: Wire, start: nat, mode: Mode, suppress: bool)
    requires ValidSchema(nodes) && i < |nodes| && start <= |wire.data|
    requires ParseValue(nodes, i, wire, start, mode, suppress, true).Success?
    ensures var r := ParseValue(nodes, i, wire, start, mode, suppress, true);
            Written(nodes, i, wire, mode, suppress, r.value, start, r.position)
    decreases |nodes| - i, 2, 0
  {
    var r := ParseValue(nodes, i, wire, start, mode, suppress, true);
    ParsedIsNamed(nodes, i, wire, start, mode, suppress);
    if !HasChildren(nodes, i) {
      LeafOfValidSchema(nodes, i);
      RulesAgree(nodes[i].typeName);
      var (width, kind) := Rule(nodes[i].typeName).value;
      LeafIsWritten(nodes[i], i, wire, start, suppress, width, kind);
      LeafValue(nodes, i, wire, mode, suppress, r.value, start, r.position);
    } else if nodes[i].typeName == Ascii("string") {
      StringIsWritten(nodes[i], SubtreeEnd(nodes, i), wire, start);
      StringValue(nodes, i, wire, mode, suppress, r.value, start, r.position);
    } else if IsArrayMarker(nodes[i + 1]) {
      ArrayIsWritten(nodes, i, wire, start, mode, suppress);
      ArrayValue(nodes, i, wire, mode, suppress, r.value, start, r.position);
    } else {
      assert AdmittedNode(nodes, i + 1);
      StructIsWritten(nodes, i, wire, start, mode, suppress);
    }
  }

  /** A value has the names of its node. */
  predicate Named(node: Node, v: Value) {
    v.name == node.name && v.typeName == node.typeName
  }

  lemma LeafValue(nodes: seq<Node>, i: nat, wire: Wire, mode: Mode, suppress: bool, v: Value, start: nat, end: nat)
    requires i < |nodes| && IsLeaf(nodes, i) && Named(nodes[i], v) && end <= |wire.data|
    requires LeafWritten(nodes[i], wire, suppress, v.data, start, end)
    ensures Written(nodes, i, wire, mode, suppress, v, start, end)
  {
  }

  lemma StringValue(nodes: seq<Node>, i: nat, wire: Wire, mode: Mode, suppress: bool, v: Value, start: nat, end: nat)
    requires i < |nodes| && !IsLeaf(nodes, i) && Named(nodes[i], v) && end <= |wire.data|
    requires nodes[i].typeName == Ascii("string") && StringWritten(wire, v.data, start, end)
    ensures Written(nodes, i, wire, mode, suppress, v, start, end)
  {
  }

  lemma ArrayValue(nodes: seq<Node>, i: nat, wire: Wire, mode: Mode, suppress: bool, v: Value, start: nat, end: nat)
    requires i < |nodes| && !IsLeaf(nodes, i) && Named(nodes[i], v) && end <= |wire.data|
    requires nodes[i].typeName != Ascii("string") && IsArrayMarker(nodes[i + 1])
    requires ArrayWritten(nodes, i, wire, mode, suppress, v.data, start, end)
    ensures Written(nodes, i, wire, mode, suppress, v, start, end)
  {
  }

  /** A parsed value has the names of its node. */
  lemma ParsedIsNamed(nodes: seq<Node>, i: nat, wire: Wire, start: nat, mode: Mode, suppress: bool)
    requires i < |nodes| && ParseValue(nodes, i, wire, start, mode, suppress, true).Success?
    ensures Named(nodes[i], ParseValue(nodes, i, wire, start, mode, suppress, true).value)
  {
  }

  lemma {:induction false} StructIsWritten(nodes: seq<Node>, i: nat, wire: Wire, start: nat, mode: Mode, suppress: bool)
    requires ValidSchema(nodes) && i < |nodes| && start <= |wire.data|
    requires HasChildren(nodes, i) && LegalNode(nodes, i + 1) && !IsArrayMarker(nodes[i + 1])
    requires nodes[i].typeName != Ascii("string")
    requires ParseStruct(nodes, i, wire, start, mode, suppress, true).Success?
    ensures var r := ParseStruct(nodes, i, wire, start, mode, suppress, true);
            Written(nodes, i, wire, mode, suppress, r.value, start, r.position)
    decreases |nodes| - i, 1, 0
  {
    var node := nodes[i];
    var members := ParseMembers(nodes, node.level, i + 1, wire, start, mode, true);
    MembersAreWritten(nodes, node.level, i + 1, wire, start, mode);
    MembersAreTotal(nodes, node.level, i + 1, wire, start, mode, true);
    FlagIsBit14(node);
    assert MembersWritten(nodes, node.level, i + 1, wire, mode, members.values, start, members.position);
  }

  lemma {:induction false} ArrayIsWritten(nodes: seq<Node>, i: nat, wire: Wire, start: nat, mode: Mode, suppress: bool)
    requires ValidSchema(nodes) && i < |nodes| && start <= |wire.data|
    requires ParseArray(nodes, i, wire, start, mode, suppress, true).Success?
    ensures var r := ParseArray(nodes, i, wire, start, mode, suppress, true);
            ArrayWritten(nodes, i, wire, mode, suppress, r.value.data, start, r.position) && r.position <= |wire.data|
    decreases |nodes| - i, 1, 0
  {
    ArrayFlags(nodes, i, suppress);
    if PacksBytes(nodes, i + 3, mode) {
      BytesAreWritten(nodes, i, wire, start, mode, suppress);
    } else {
      var size := WordAt(wire, start, 4);
      ElementsAreWritten(nodes, i + 3, size, wire, start + 4, mode);
      ElementsAreTotal(nodes, i + 3, size, wire, start + 4, mode, true);
      ArrayFromElements(nodes, i, wire, start, mode, suppress);
    }
  }

  lemma ArrayFlags(nodes: seq<Node>, i: nat, suppress: bool)
    requires i + 3 < |nodes|
    ensures ArrayAligns(nodes, i, suppress) == ArrayFlagged(nodes, i, suppress)
  {
    FlagIsBit14(nodes[i]);
    FlagIsBit14(nodes[i + 1]);
    FlagIsBit14(nodes[i + 3]);
  }

  lemma BytesAreWritten(nodes: seq<Node>, i: nat, wire: Wire, start: nat, mode: Mode, suppress: bool)
    requires i + 3 < |nodes| && PacksBytes(nodes, i + 3, mode)
    requires ArrayAligns(nodes, i, suppress) == ArrayFlagged(nodes, i, suppress)
    requires ParseArray(nodes, i, wire, start, mode, suppress, true).Success?
    ensures var r := ParseArray(nodes, i, wire, start, mode, suppress, true);
            ArrayWritten(nodes, i, wire, mode, suppress, r.value.data, start, r.position) && r.position <= |wire.data|
  {
    var r, size := ParseArray(nodes, i, wire, start, mode, suppress, true), WordAt(wire, start, 4);
    BytesOf(wire, mode, start, size, ArrayFlagged(nodes, i, suppress), r.position);
  }

  lemma BytesOf(wire: Wire, mode: Mode, start: nat, size: nat, align: bool, end: nat)
    requires start + 4 + size <= |wire.data| && size <= INT_MAX && size == WordAt(wire, start, 4)
    requires EndsAt(align, start + 4 + size, end)
    ensures var bytes := wire.data[start + 4..start + 4 + size];
            BytesWritten(wire, mode, PackedVal(bytes, mode == PackedCopy && size > 0), start, align, end)
  {
    WordIsSpelled(wire, start, 4);
  }

  lemma ArrayFromElements(nodes: seq<Node>, i: nat, wire: Wire, start: nat, mode: Mode, suppress: bool)
    requires i + 3 < |nodes| && !PacksBytes(nodes, i + 3, mode)
    requires ArrayAligns(nodes, i, suppress) == ArrayFlagged(nodes, i, suppress)
    requires ParseArray(nodes, i, wire, start, mode, suppress, true).Success?
    requires var r := ParseElements(nodes, i + 3, WordAt(wire, start, 4), wire, start + 4, mode, true);
             && r.Listed? && |r.values| == WordAt(wire, start, 4) && r.position <= |wire.data|
             && ElementsWritten(nodes, i + 3, wire, mode, r.values, start + 4, r.position)
    ensures var r := ParseArray(nodes, i, wire, start, mode, suppress, true);
            ArrayWritten(nodes, i, wire, mode, suppress, r.value.data, start, r.position) && r.position <= |wire.data|
  {
    WordIsSpelled(wire, start, 4);
    var elements := ParseElements(nodes, i + 3, WordAt(wire, start, 4), wire, start + 4, mode, true);
    var r := ParseArray(nodes, i, wire, start, mode, suppress, true);
    ArrayOfElements(nodes, i, wire, mode, suppress, elements.values, start, elements.position, r.position);
  }

  lemma ArrayOfElements(nodes: seq<Node>, i: nat, wire: Wire, mode: Mode, suppress: bool, elements: seq<Value>,
                        start: nat, m: nat, end: nat)
    requires i + 3 < |nodes| && !KeptAsBytes(nodes, i + 3, mode) && start + 4 <= |wire.data| && |elements| <= INT_MAX
    requires wire.data[start..start + 4] == Spelled(|elements|, 4, wire.bigEndian)
    requires ElementsWritten(nodes, i + 3, wire, mode, elements, start + 4, m)
    requires EndsAt(ArrayFlagged(nodes, i, suppress), m, end)
    ensures ArrayWritten(nodes, i, wire, mode, suppress, ArrayVal(elements), start, end)
  {
  }

  lemma ElementsCons(nodes: seq<Node>, data: nat, wire: Wire, mode: Mode, v: Value, vs: seq<Value>, start: nat, m: nat,
                     end: nat)
    requires data < |nodes| && Written(nodes, data, wire, mode, true, v, start, m)
    requires ElementsWritten(nodes, data, wire, mode, vs, m, end)
    ensures ElementsWritten(nodes, data, wire, mode, [v] + vs, start, end)
  {
    var all := [v] + vs;
    assert all[1..] == vs && Written(nodes, data, wire, mode, true, all[0], start, m);
  }

  lemma MembersCons(nodes: seq<Node>, level: nat, index: nat, wire: Wire, mode: Mode, v: Value, vs: seq<Value>,
                    start: nat, m: nat, end: nat)
    requires index < |nodes| && nodes[index].level > level && Written(nodes, index, wire, mode, false, v, start, m)
    requires MembersWritten(nodes, level, SubtreeEnd(nodes, index), wire, mode, vs, m, end)
    ensures MembersWritten(nodes, level, index, wire, mode, [v] + vs, start, end)
  {
    var all := [v] + vs;
    assert all[1..] == vs && Written(nodes, index, wire, mode, false, all[0], start, m);
  }

  lemma {:induction false} ElementsAreWritten(nodes: seq<Node>, data: nat, count: nat, wire: Wire, start: nat,
                                              mode: Mode)
    requires ValidSchema(nodes) && data < |nodes| && start <= |wire.data|
    requires ParseElements(nodes, data, count, wire, start, mode, true).Listed?
    ensures var r := ParseElements(nodes, data, count, wire, start, mode, true);
            ElementsWritten(nodes, data, wire, mode, r.values, start, r.position)
    decreases |nodes| - data, 3, count
  {
    if count > 0 {
      var first := ParseValue(nodes, data, wire, start, mode, true, true);
      ParsedIsWritten(nodes, data, wire, start, mode, true);
      ParserIsTotal(nodes, data, wire, start, mode, true, true);
      ElementsAreWritten(nodes, data, count - 1, wire, first.position, mode);
      var rest := ParseElements(nodes, data, count - 1, wire, first.position, mode, true);
      ElementsCons(nodes, data, wire, mode, first.value, rest.values, start, first.position, rest.position);
    }
  }

  lemma {:induction false} MembersAreWritten(nodes: seq<Node>, level: nat, index: nat, wire: Wire, start: nat,
                                             mode: Mode)
    requires ValidSchema(nodes) && index <= |nodes| && start <= |wire.data|
    requires index < |nodes| && nodes[index].level > level ==> nodes[index].level == level + 1
    requires ParseMembers(nodes, level, index, wire, start, mode, true).Listed?
    ensures var r := ParseMembers(nodes, level, index, wire, start, mode, true);
            MembersWritten(nodes, level, index, wire, mode, r.values, start, r.position)
    decreases |nodes| - index, 3, 0
  {
    if index < |nodes| && nodes[index].level > level {
      var first := ParseValue(nodes, index, wire, start, mode, false, true);
      ParsedIsWritten(nodes, index, wire, start, mode, false);
      ParserIsTotal(nodes, index, wire, start, mode, false, true);
      NextChildLevel(nodes, level, index);
      MembersAreWritten(nodes, level, first.index, wire, first.position, mode);
      var rest := ParseMembers(nodes, level, first.index, wire, first.position, mode, true);
      MembersCons(nodes, level, index, wire, mode, first.value, rest.values, start, first.position, rest.position);
    }
  }

  // ----- What is spelled is parsed -----

  lemma AlignsTo(align: bool, from: nat, end: nat, wire: Wire, value: Value, index: nat)
    requires EndsAt(align, from, end) && end <= |wire.data|
    ensures AlignTail(value, index, from, wire, align) == Success(value, index, end) && from <= end
  {
  }

  /** A leaf whose data are read is the value of its node. */
  lemma LeafOfData(node: Node, i: nat, wire: Wire, suppress: bool, v: Value, start: nat, end: nat, width: nat)
    requires node.byteSize == width && IsWidth(width) && Named(node, v) && start + width <= |wire.data|
    requires width <= 2 ==> IsSignedInteger(node.typeName) || IsUnsignedInteger(node.typeName)
    requires ScalarData(node.typeName, width, WordAt(wire, start, width)) == Some(v.data)
    requires AlignTail(v, i + 1, start + width, wire, !suppress && WantsAlignment(node.metaFlags))
             == Success(v, i + 1, end)
    ensures ParseLeaf(node, i, wire, start, suppress) == Success(v, i + 1, end)
  {
  }

  /** Only integers are one or two bytes wide. */
  lemma NarrowIsInteger(t: seq<byte>, width: nat, kind: Kind)
    requires Rule(t) == Some((width, kind)) && width <= 2
    ensures IsSignedInteger(t) || IsUnsignedInteger(t)
  {
    RulesAgree(t);
  }

  /** The word behind a spelled leaf is its data. */
  lemma LeafIsRead(node: Node, wire: Wire, suppress: bool, d: Data, start: nat, end: nat, width: nat, kind: Kind)
    requires Rule(node.typeName) == Some((width, kind)) && IsWidth(width)
    requires LeafWritten(node, wire, suppress, d, start, end)
    ensures start + width <= |wire.data| && EndsAt(!suppress && Flagged(node), start + width, end)
    ensures ScalarData(node.typeName, width, WordAt(wire, start, width)) == Some(d)
  {
    WordIsSpelled(wire, start, width);
    ScalarIsSpelled(node.typeName, width, kind, WordAt(wire, start, width), wire.bigEndian, d);
  }

  lemma LeafAligns(node: Node, i: nat, wire: Wire, suppress: bool, v: Value, from: nat, end: nat)
    requires EndsAt(!suppress && Flagged(node), from, end) && end <= |wire.data|
    ensures AlignTail(v, i + 1, from, wire, !suppress && WantsAlignment(node.metaFlags)) == Success(v, i + 1, end)
  {
    var align := !suppress && Flagged(node);
    AlignsTo(align, from, end, wire, v, i + 1);
    assert align == (!suppress && WantsAlignment(node.metaFlags)) by {
      FlagIsBit14(node);
    }
  }

  lemma LeafParses(node: Node, i: nat, wire: Wire, suppress: bool, v: Value, start: nat, end: nat, width: nat,
                   kind: Kind)
    requires Rule(node.typeName) == Some((width, kind)) && node.byteSize == width && IsWidth(width)
    requires Named(node, v) && LeafWritten(node, wire, suppress, v.data, start, end) && end <= |wire.data|
    ensures ParseLeaf(node, i, wire, start, suppress) == Success(v, i + 1, end)
  {
    LeafIsRead(node, wire, suppress, v.data, start, end, width, kind);
    LeafAligns(node, i, wire, suppress, v, start + width, end);
    if width <= 2 {
      NarrowIsInteger(node.typeName, width, kind);
    }
    LeafOfData(node, i, wire, suppress, v, start, end, width);
  }

  lemma StringParses(node: Node, next: nat, wire: Wire, v: Value, start: nat, end: nat)
    requires Named(node, v) && StringWritten(wire, v.data, start, end) && end <= |wire.data|
    ensures ParseString(node, next, wire, start) == Success(v, next, end)
  {
    CountIsRead(wire, start, |v.data.text|);
    AlignsTo(true, start + 4 + |v.data.text|, end, wire, v, next);
  }

  lemma CountIsRead(wire: Wire, start: nat, count: nat)
    requires start + 4 <= |wire.data| && count <= UINT32_MAX
    requires wire.data[start..start + 4] == Spelled(count, 4, wire.bigEndian)
    ensures WordAt(wire, start, 4) == count
  {
    WordIsSpelled(wire, start, 4);
    PowersOf256();
    SpelledOnce(WordAt(wire, start, 4), count, 4, wire.bigEndian);
  }

  /** The parser finds every value that is spelled, where it ends. */
  lemma {:induction false} WrittenParses(nodes: seq<Node>, i: nat, wire: Wire, mode: Mode, suppress: bool, v: Value,
                                         start: nat, end: nat)
    requires ValidSchema(nodes) && i < |nodes| && start <= |wire.data|
    requires Written(nodes, i, wire, mode, suppress, v, start, end)
    ensures ParseValue(nodes, i, wire, start, mode, suppress, false) == Success(v, SubtreeEnd(nodes, i), end)
    decreases |nodes| - i, 2, 0
  {
    if !HasChildren(nodes, i) {
      LeafOfValidSchema(nodes, i);
      RulesAgree(nodes[i].typeName);
      var (width, kind) := Rule(nodes[i].typeName).value;
      LeafParses(nodes[i], i, wire, suppress, v, start, end, width, kind);
      SubtreeEndThroughChild(nodes, i, i + 1);
    } else if nodes[i].typeName == Ascii("string") {
      StringParses(nodes[i], SubtreeEnd(nodes, i), wire, v, start, end);
    } else if IsArrayMarker(nodes[i + 1]) {
      ArrayOfValidSchema(nodes, i);
      ArrayParses(nodes, i, wire, mode, suppress, v, start, end);
    } else {
      assert AdmittedNode(nodes, i + 1);
      StructParses(nodes, i, wire, mode, suppress, v, start, end);
    }
  }

  lemma {:induction false} StructParses(nodes: seq<Node>, i: nat, wire: Wire, mode: Mode, suppress: bool, v: Value,
                                        start: nat, end: nat)
    requires ValidSchema(nodes) && i < |nodes| && start <= |wire.data|
    requires HasChildren(nodes, i) && LegalNode(nodes, i + 1) && !IsArrayMarker(nodes[i + 1])
    requires nodes[i].typeName != Ascii("string") && Written(nodes, i, wire, mode, suppress, v, start, end)
    ensures ParseStruct(nodes, i, wire, start, mode, suppress, false) == Success(v, SubtreeEnd(nodes, i), end)
    decreases |nodes| - i, 1, 0
  {
    var node := nodes[i];
    var m :| MembersWritten(nodes, node.level, i + 1, wire, mode, v.data.members, start, m)
             && EndsAt(!suppress && Flagged(node), m, end);
    AlignsTo(!suppress && Flagged(node), m, end, wire, v, SubtreeEnd(nodes, i));
    MembersParse(nodes, node.level, i + 1, wire, mode, v.data.members, start, m);
    MembersAreTotal(nodes, node.level, i + 1, wire, start, mode, false);
    SubtreeEndThroughChild(nodes, i, ParseMembers(nodes, node.level, i + 1, wire, start, mode, false).index);
    FlagIsBit14(node);
  }

  lemma {:induction false} ArrayParses(nodes: seq<Node>, i: nat, wire: Wire, mode: Mode, suppress: bool, v: Value,
                                       start: nat, end: nat)
    requires ValidSchema(nodes) && i + 1 < |nodes| && start <= |wire.data| && end <= |wire.data|
    requires ValidArray(nodes, i + 1) && Named(nodes[i], v)
    requires ArrayWritten(nodes, i, wire, mode, suppress, v.data, start, end)
    ensures ParseArray(nodes, i, wire, start, mode, suppress, false) == Success(v, SubtreeEnd(nodes, i), end)
    decreases |nodes| - i, 1, 0
  {
    ArrayFlags(nodes, i, suppress);
    var align := ArrayFlagged(nodes, i, suppress);
    if KeptAsBytes(nodes, i + 3, mode) {
      BytesParse(nodes, i, wire, mode, suppress, v, start, end);
    } else {
      var elements := v.data.elements;
      var m :| ElementsWritten(nodes, i + 3, wire, mode, elements, start + 4, m) && EndsAt(align, m, end);
      CountIsRead(wire, start, |elements|);
      ElementsParse(nodes, i + 3, wire, mode, elements, start + 4, m);
      AlignsTo(align, m, end, wire, v, SubtreeEnd(nodes, i));
    }
  }

  lemma BytesParse(nodes: seq<Node>, i: nat, wire: Wire, mode: Mode, suppress: bool, v: Value, start: nat, end: nat)
    requires i + 3 < |nodes| && start + 4 <= |wire.data| && end <= |wire.data| && KeptAsBytes(nodes, i + 3, mode)
    requires ValidArray(nodes, i + 1) && Named(nodes[i], v)
    requires ArrayAligns(nodes, i, suppress) == ArrayFlagged(nodes, i, suppress)
    requires BytesWritten(wire, mode, v.data, start, ArrayFlagged(nodes, i, suppress), end)
    ensures ParseArray(nodes, i, wire, start, mode, suppress, false) == Success(v, SubtreeEnd(nodes, i), end)
  {
    var size := |v.data.bytes|;
    CountIsRead(wire, start, size);
    AlignsTo(ArrayFlagged(nodes, i, suppress), start + 4 + size, end, wire, v, SubtreeEnd(nodes, i));
  }

  lemma {:induction false} ElementsParse(nodes: seq<Node>, data: nat, wire: Wire, mode: Mode, vs: seq<Value>,
                                         start: nat, end: nat)
    requires ValidSchema(nodes) && data < |nodes| && start <= |wire.data|
    requires ElementsWritten(nodes, data, wire, mode, vs, start, end)
    ensures ParseElements(nodes, data, |vs|, wire, start, mode, false) == Listed(vs, data, end)
    decreases |nodes| - data, 3, |vs|
  {
    if vs != [] {
      var m :| Written(nodes, data, wire, mode, true, vs[0], start, m)
               && ElementsWritten(nodes, data, wire, mode, vs[1..], m, end);
      WrittenParses(nodes, data, wire, mode, true, vs[0], start, m);
      ParserIsTotal(nodes, data, wire, start, mode, true, false);
      ElementsParse(nodes, data, wire, mode, vs[1..], m, end);
      ElementsStep(nodes, data, wire, mode, vs, start, m, end);
    }
  }

  lemma ElementsStep(nodes: seq<Node>, data: nat, wire: Wire, mode: Mode, vs: seq<Value>, start: nat, m: nat, end: nat)
    requires data < |nodes| && vs != []
    requires ParseValue(nodes, data, wire, start, mode, true, false) == Success(vs[0], SubtreeEnd(nodes, data), m)
    requires ParseElements(nodes, data, |vs| - 1, wire, m, mode, false) == Listed(vs[1..], data, end)
    ensures ParseElements(nodes, data, |vs|, wire, start, mode, false) == Listed(vs, data, end)
  {
    assert vs == [vs[0]] + vs[1..];
  }

  lemma {:induction false} MembersParse(nodes: seq<Node>, level: nat, index: nat, wire: Wire, mode: Mode,
                                        vs: seq<Value>, start: nat, end: nat)
    requires ValidSchema(nodes) && index <= |nodes| && start <= |wire.data|
    requires index < |nodes| && nodes[index].level > level ==> nodes[index].level == level + 1
    requires MembersWritten(nodes, level, index, wire, mode, vs, start, end)
    ensures var r := ParseMembers(nodes, level, index, wire, start, mode, false);
            r.Listed? && r.values == vs && r.position == end
    decreases |nodes| - index, 3, 0
  {
    if index < |nodes| && nodes[index].level > level {
      var next := SubtreeEnd(nodes, index);
      var m :| Written(nodes, index, wire, mode, false, vs[0], start, m)
               && MembersWritten(nodes, level, next, wire, mode, vs[1..], m, end);
      WrittenParses(nodes, index, wire, mode, false, vs[0], start, m);
      ParserIsTotal(nodes, index, wire, start, mode, false, false);
      NextChildLevel(nodes, level, index);
      MembersParse(nodes, level, next, wire, mode, vs[1..], m, end);
      assert vs == [vs[0]] + vs[1..];
    }
  }

  /** On a valid schema the parser succeeds exactly on the bytes that spell a value, and with that value. */
  lemma ParsesExactlyWhatIsWritten(nodes: seq<Node>, i: nat, wire: Wire, start: nat, mode: Mode, suppress: bool,
                                   v: Value, end: nat)
    requires ValidSchema(nodes) && i < |nodes| && start <= |wire.data|
    ensures ParseValue(nodes, i, wire, start, mode, suppress, true) == Success(v, SubtreeEnd(nodes, i), end)
            <==> Written(nodes, i, wire, mode, suppress, v, start, end)
  {
    if ParseValue(nodes, i, wire, start, mode, suppress, true) == Success(v, SubtreeEnd(nodes, i), end) {
      ParsedIsWritten(nodes, i, wire, start, mode, suppress);
    }
    if Written(nodes, i, wire, mode, suppress, v, start, end) {
      WrittenParses(nodes, i, wire, mode, suppress, v, start, end);
      EarlyCheckIsSound(nodes, i, wire, start, mode, suppress);
    }
  }
}
