/** The stream cursor of src/common/stream.c and the recursive value parser of src/io/typetree.c. */
module TypeTreeParser {
  import opened Bytes
  import opened TypeTreeValues
  import opened TypeTreeSchema

  // ----- The byte stream -----

  datatype Wire = Wire(data: seq<byte>, bigEndian: bool)

  /** The next multiple of four. */
  function Aligned(position: nat): (r: nat)
    ensures position <= r < position + 4 && r % 4 == 0
  {
    if position % 4 == 0 then position else position + (4 - position % 4)
  }

  class ByteStream {
    const wire: Wire
    var position: nat

    ghost predicate Valid()
      reads this
    {
      position <= |wire.data|
    }

    constructor (wire: Wire, position: nat)
      requires position <= |wire.data|
      ensures Valid() && this.wire == wire && this.position == position
    {
      this.wire, this.position := wire, position;
    }

    function Remaining(): nat
      requires Valid()
      reads this
    {
      |wire.data| - position
    }

    method Skip(count: nat) returns (ok: bool)
      requires Valid()
      modifies this
      ensures Valid() && ok == (old(position) + count <= |wire.data|)
      ensures position == if ok then old(position) + count else old(position)
    {
      if count > Remaining() {
        return false;
      }
      position := position + count;
      ok := true;
    }

    method Align() returns (ok: bool)
      requires Valid()
      modifies this
      ensures Valid() && ok == (Aligned(old(position)) <= |wire.data|)
      ensures ok ==> position == Aligned(old(position))
    {
      var remainder := position % 4;
      if remainder != 0 {
        ok := Skip(4 - remainder);
      } else {
        ok := true;
      }
    }

    method ReadBytes(count: nat) returns (ok: bool, bytes: seq<byte>)
      requires Valid()
      modifies this
      ensures Valid() && ok == (old(position) + count <= |wire.data|)
      ensures ok ==> position == old(position) + count && bytes == wire.data[old(position)..position]
    {
      if count > Remaining() {
        return false, [];
      }
      bytes := wire.data[position..position + count];
      position := position + count;
      ok := true;
    }

    /** Any of the fixed-width integer reads. */
    method ReadWord(width: nat) returns (ok: bool, word: u64)
      requires Valid() && (width == 1 || width == 2 || width == 4 || width == 8)
      modifies this
      ensures Valid() && ok == (old(position) + width <= |wire.data|)
      ensures ok ==> position == old(position) + width && word == WordAt(wire, old(position), width)
    {
      var bytes;
      ok, bytes := ReadBytes(width);
      word := if !ok then 0 else DecodeWord(bytes, wire.bigEndian);
    }
  }

  function DecodeWord(bytes: seq<byte>, bigEndian: bool): u64
    requires |bytes| == 1 || |bytes| == 2 || |bytes| == 4 || |bytes| == 8
  {
    if |bytes| == 1 then bytes[0] as nat
    else if |bytes| == 2 then Decode16(bytes, bigEndian)
    else if |bytes| == 4 then Decode32(bytes, bigEndian)
    else Decode64(bytes, bigEndian)
  }

  function WordAt(wire: Wire, position: nat, width: nat): u64
    requires width == 1 || width == 2 || width == 4 || width == 8
    requires position + width <= |wire.data|
  {
    DecodeWord(wire.data[position..position + width], wire.bigEndian)
  }

  // ----- What parsing one node means -----

  /** How arrays of UInt8 are stored. */
  datatype Mode = Expanded | PackedCopy | Borrowed

  datatype Reason = ShortInput | CountTooLarge | NoRule

  datatype Outcome = Success(value: Value, index: nat, position: nat) | Failure(reason: Reason)

  datatype ListOutcome = Listed(values: seq<Value>, index: nat, position: nat) | ListFailure(reason: Reason)

  const ALIGN_FLAG: nat := 0x4000

  predicate WantsAlignment(metaFlags: u32) {
    metaFlags / ALIGN_FLAG % 2 == 1
  }

  /** Two's-complement reading of the low `8 * width` bits. */
  function Signed(word: u64, width: nat): i64
    requires width == 1 || width == 2 || width == 4 || width == 8
  {
    if width == 1 then (if word % 0x100 < 0x80 then word % 0x100 else word % 0x100 - 0x100)
    else if width == 2 then (if word % 0x1_0000 < 0x8000 then word % 0x1_0000 else word % 0x1_0000 - 0x1_0000)
    else if width == 4
    then (if word % 0x1_0000_0000 < 0x8000_0000 then word % 0x1_0000_0000 else word % 0x1_0000_0000 - 0x1_0000_0000)
    else if word < 0x8000_0000_0000_0000 then word else word - 0x1_0000_0000_0000_0000
  }

  /** The 64-bit image of a 32-bit float, as IEEE 754 converts it; a signalling NaN becomes quiet. */
  function WidenFloat(word: u32): u64 {
    var sign, exponent, fraction :=
      word / 0x8000_0000 * 0x8000_0000_0000_0000, word / 0x80_0000 % 0x100, word % 0x80_0000;
    if exponent == 0xFF then
      sign + 0x7FF0_0000_0000_0000
      + (if fraction == 0 then 0 else if fraction < 0x40_0000 then fraction + 0x40_0000 else fraction) * 0x2000_0000
    else if exponent > 0 then sign + (exponent + 896) * 0x10_0000_0000_0000 + fraction * 0x2000_0000
    else if fraction == 0 then sign
    else sign + Normalised(fraction, 0)
  }

  /** A subnormal fraction doubled until its leading bit is the implicit one. */
  function Normalised(fraction: nat, shift: nat): (r: nat)
    requires shift <= 23
    ensures r < 0x8000_0000_0000_0000
    decreases 23 - shift
  {
    if fraction < 0x80_0000 && shift < 23 then Normalised(2 * fraction, shift + 1)
    else (897 - shift) * 0x10_0000_0000_0000 + fraction % 0x80_0000 * 0x2000_0000
  }

  /** The payload of a scalar; floats are carried as the bits of their doubles. */
  function ScalarData(t: seq<byte>, width: nat, word: u64): Option<Data>
    requires width == 1 || width == 2 || width == 4 || width == 8
  {
    if width == 4 && t == Ascii("float") then Some(FloatVal(WidenFloat(word % 0x1_0000_0000)))
    else if width == 8 && t == Ascii("double") then Some(FloatVal(word))
    else if IsSignedInteger(t) then Some(SignedVal(Signed(word, width)))
    else if IsUnsignedInteger(t) then Some(UnsignedVal(word))
    else None
  }

  function AlignTail(value: Value, index: nat, position: nat, wire: Wire, align: bool): Outcome {
    if !align then Success(value, index, position)
    else if Aligned(position) > |wire.data| then Failure(ShortInput)
    else Success(value, index, Aligned(position))
  }

  function ParseLeaf(node: Node, index: nat, wire: Wire, position: nat, suppress: bool): Outcome {
    var w := node.byteSize;
    if !(w == 1 || w == 2 || w == 4 || w == 8) then Failure(NoRule)
    else if w <= 2 && !IsSignedInteger(node.typeName) && !IsUnsignedInteger(node.typeName) then Failure(NoRule)
    else if position + w > |wire.data| then Failure(ShortInput)
    else
      match ScalarData(node.typeName, w, WordAt(wire, position, w))
      case None => Failure(NoRule)
      case Some(data) =>
        AlignTail(Value(node.name, node.typeName, data), index + 1, position + w, wire,
                  !suppress && WantsAlignment(node.metaFlags))
  }

  function ParseString(node: Node, end: nat, wire: Wire, position: nat): Outcome {
    if position + 4 > |wire.data| then Failure(ShortInput)
    else
      var size := WordAt(wire, position, 4);
      if position + 4 + size > |wire.data| then Failure(ShortInput)
      else
        AlignTail(Value(node.name, node.typeName, StringVal(wire.data[position + 4..position + 4 + size])),
                  end, position + 4 + size, wire, true)
  }

  predicate PacksBytes(nodes: seq<Node>, data: nat, mode: Mode)
    requires data < |nodes|
  {
    mode != Expanded && nodes[data].byteSize == 1 && !HasChildren(nodes, data) && nodes[data].typeName == Ascii("UInt8")
  }

  predicate ArrayAligns(nodes: seq<Node>, owner: nat, suppress: bool)
    requires owner + 3 < |nodes|
  {
    || WantsAlignment(nodes[owner + 1].metaFlags) || WantsAlignment(nodes[owner + 3].metaFlags)
    || (!suppress && WantsAlignment(nodes[owner].metaFlags))
  }

  /** Parse the value of node `index`. With `early`, an array whose count exceeds the remaining bytes
      is refused before any element is read. */
  function ParseValue(nodes: seq<Node>, index: nat, wire: Wire, position: nat, mode: Mode, suppress: bool, early: bool)
    : (r: Outcome)
    requires index < |nodes|
    ensures r.Success? ==> index < r.index <= |nodes|
    decreases |nodes| - index, 2, 0
  {
    var node := nodes[index];
    if !HasChildren(nodes, index) then ParseLeaf(node, index, wire, position, suppress)
    else if node.typeName == Ascii("string") then ParseString(node, SubtreeEnd(nodes, index), wire, position)
    else if IsArrayMarker(nodes[index + 1]) then ParseArray(nodes, index, wire, position, mode, suppress, early)
    else ParseStruct(nodes, index, wire, position, mode, suppress, early)
  }

  function ParseStruct(nodes: seq<Node>, index: nat, wire: Wire, position: nat, mode: Mode, suppress: bool, early: bool)
    : (r: Outcome)
    requires index < |nodes|
    ensures r.Success? ==> index < r.index <= |nodes|
    decreases |nodes| - index, 1, 0
  {
    var node := nodes[index];
    match ParseMembers(nodes, node.level, index + 1, wire, position, mode, early)
    case ListFailure(reason) => Failure(reason)
    case Listed(members, next, end) =>
      AlignTail(Value(node.name, node.typeName, StructVal(members)), next, end, wire,
                !suppress && WantsAlignment(node.metaFlags))
  }

  function ParseArray(nodes: seq<Node>, index: nat, wire: Wire, position: nat, mode: Mode, suppress: bool, early: bool)
    : (r: Outcome)
    requires index < |nodes|
    ensures r.Success? ==> index < r.index <= |nodes|
    decreases |nodes| - index, 1, 0
  {
    var node, data := nodes[index], index + 3;
    if data >= |nodes| || nodes[index + 2].level <= node.level || nodes[data].level <= node.level then Failure(NoRule)
    else if position + 4 > |wire.data| then Failure(ShortInput)
    else
      var size := WordAt(wire, position, 4);
      if size > INT_MAX then Failure(CountTooLarge)
      else if early && position + 4 + size > |wire.data| then Failure(ShortInput)
      else if PacksBytes(nodes, data, mode) then
        if position + 4 + size > |wire.data| then Failure(ShortInput)
        else
          var bytes := wire.data[position + 4..position + 4 + size];
          AlignTail(Value(node.name, node.typeName, PackedVal(bytes, mode == PackedCopy && size > 0)),
                    SubtreeEnd(nodes, index), position + 4 + size, wire, ArrayAligns(nodes, index, suppress))
      else
        match ParseElements(nodes, data, size, wire, position + 4, mode, early)
        case ListFailure(reason) => Failure(reason)
        case Listed(elements, _, end) =>
          AlignTail(Value(node.name, node.typeName, ArrayVal(elements)), SubtreeEnd(nodes, index), end, wire,
                    ArrayAligns(nodes, index, suppress))
  }

  /** `count` elements, each parsed from node `data` without its own alignment. */
  function ParseElements(nodes: seq<Node>, data: nat, count: nat, wire: Wire, position: nat, mode: Mode,
                         early: bool): ListOutcome
    requires data < |nodes|
    decreases |nodes| - data, 3, count
  {
    if count == 0 then Listed([], data, position)
    else
      match ParseValue(nodes, data, wire, position, mode, true, early)
      case Failure(reason) => ListFailure(reason)
      case Success(value, _, next) =>
        match ParseElements(nodes, data, count - 1, wire, next, mode, early)
        case ListFailure(reason) => ListFailure(reason)
        case Listed(values, _, end) => Listed([value] + values, data, end)
  }

  /** The nodes from `index` on that lie deeper than `level`: the direct children are parsed. */
  function ParseMembers(nodes: seq<Node>, level: nat, index: nat, wire: Wire, position: nat, mode: Mode, early: bool)
    : (r: ListOutcome)
    requires index <= |nodes|
    ensures r.Listed? ==> index <= r.index <= |nodes|
    decreases |nodes| - index, 3, 0
  {
    if index == |nodes| || nodes[index].level <= level then Listed([], index, position)
    else if nodes[index].level != level + 1 then ParseMembers(nodes, level, index + 1, wire, position, mode, early)
    else
      match ParseValue(nodes, index, wire, position, mode, false, early)
      case Failure(reason) => ListFailure(reason)
      case Success(value, next, after) =>
        match ParseMembers(nodes, level, next, wire, after, mode, early)
        case ListFailure(reason) => ListFailure(reason)
        case Listed(values, end, last) => Listed([value] + values, end, last)
  }

  // ----- The validator makes the parser total -----

  lemma LeafOfValidSchema(nodes: seq<Node>, i: nat)
    requires ValidSchema(nodes) && i < |nodes| && !HasChildren(nodes, i)
    ensures ScalarWireSize(nodes[i].typeName) != 0 && nodes[i].byteSize == ScalarWireSize(nodes[i].typeName)
  {
    assert AdmittedNode(nodes, i);
  }

  lemma ArrayOfValidSchema(nodes: seq<Node>, i: nat)
    requires ValidSchema(nodes) && i < |nodes| && HasChildren(nodes, i) && IsArrayMarker(nodes[i + 1])
    ensures ValidArray(nodes, i + 1)
  {
    assert AdmittedNode(nodes, i + 1);
  }

  /** The next node after a completed child is the end of the parent or exactly one level below it. */
  lemma NextChildLevel(nodes: seq<Node>, level: nat, child: nat)
    requires child < |nodes| && nodes[child].level == level + 1
    ensures var e := SubtreeEnd(nodes, child); e < |nodes| && nodes[e].level > level ==> nodes[e].level == level + 1
  {
    SubtreeEndIsFirstStop(nodes, child);
  }

  lemma SubtreeEndThroughChild(nodes: seq<Node>, i: nat, end: nat)
    requires i < end <= |nodes|
    requires forall k :: i < k < end ==> nodes[k].level > nodes[i].level
    requires end < |nodes| ==> nodes[end].level <= nodes[i].level
    ensures end == SubtreeEnd(nodes, i)
  {
    SubtreeEndIsFirstStop(nodes, i);
  }

  /** What a valid schema promises of one parse. */
  predicate Sound(nodes: seq<Node>, index: nat, wire: Wire, position: nat, r: Outcome)
    requires index < |nodes|
  {
    match r
    case Success(_, next, end) => next == SubtreeEnd(nodes, index) && position < end <= |wire.data|
    case Failure(reason) => reason != NoRule
  }

  lemma LeafIsTotal(nodes: seq<Node>, index: nat, wire: Wire, position: nat, suppress: bool)
    requires ValidSchema(nodes) && index < |nodes| && position <= |wire.data| && !HasChildren(nodes, index)
    ensures Sound(nodes, index, wire, position, ParseLeaf(nodes[index], index, wire, position, suppress))
  {
    LeafOfValidSchema(nodes, index);
    ScalarsHaveRules(nodes[index].typeName);
    SubtreeEndThroughChild(nodes, index, index + 1);
  }

  /** On a valid schema every parse terminates, ends at the node's subtree end, consumes at least one
      byte, and fails only for short input or an oversized count. */
  lemma {:induction false} ParserIsTotal(nodes: seq<Node>, index: nat, wire: Wire, position: nat, mode: Mode,
                                         suppress: bool, early: bool)
    requires ValidSchema(nodes) && index < |nodes| && position <= |wire.data|
    ensures Sound(nodes, index, wire, position, ParseValue(nodes, index, wire, position, mode, suppress, early))
    decreases |nodes| - index, 2, 0
  {
    if !HasChildren(nodes, index) {
      LeafIsTotal(nodes, index, wire, position, suppress);
    } else if nodes[index].typeName == Ascii("string") {
    } else if IsArrayMarker(nodes[index + 1]) {
      ArrayIsTotal(nodes, index, wire, position, mode, suppress, early);
    } else {
      assert AdmittedNode(nodes, index + 1);
      StructIsTotal(nodes, index, wire, position, mode, suppress, early);
    }
  }

  lemma {:induction false} StructIsTotal(nodes: seq<Node>, index: nat, wire: Wire, position: nat, mode: Mode,
                                         suppress: bool, early: bool)
    requires ValidSchema(nodes) && index < |nodes| && position <= |wire.data|
    requires HasChildren(nodes, index) && LegalNode(nodes, index + 1)
    ensures Sound(nodes, index, wire, position, ParseStruct(nodes, index, wire, position, mode, suppress, early))
    decreases |nodes| - index, 1, 0
  {
    var level := nodes[index].level;
    MembersAreTotal(nodes, level, index + 1, wire, position, mode, early);
    var r := ParseMembers(nodes, level, index + 1, wire, position, mode, early);
    if r.Listed? {
      SubtreeEndThroughChild(nodes, index, r.index);
    }
  }

  lemma {:induction false} ArrayIsTotal(nodes: seq<Node>, index: nat, wire: Wire, position: nat, mode: Mode,
                                        suppress: bool, early: bool)
    requires ValidSchema(nodes) && index < |nodes| && position <= |wire.data|
    requires HasChildren(nodes, index) && IsArrayMarker(nodes[index + 1])
    ensures Sound(nodes, index, wire, position, ParseArray(nodes, index, wire, position, mode, suppress, early))
    decreases |nodes| - index, 1, 0
  {
    ArrayOfValidSchema(nodes, index);
    if position + 4 <= |wire.data| {
      ElementsAreTotal(nodes, index + 3, WordAt(wire, position, 4), wire, position + 4, mode, early);
    }
  }

  lemma {:induction false} ElementsAreTotal(nodes: seq<Node>, data: nat, count: nat, wire: Wire, position: nat,
                                            mode: Mode, early: bool)
    requires ValidSchema(nodes) && data < |nodes| && position <= |wire.data|
    ensures match ParseElements(nodes, data, count, wire, position, mode, early)
            case Listed(values, _, end) => |values| == count && position + count <= end <= |wire.data|
            case ListFailure(reason) => reason != NoRule
    decreases |nodes| - data, 3, count
  {
    if count > 0 {
      ParserIsTotal(nodes, data, wire, position, mode, true, early);
      var r := ParseValue(nodes, data, wire, position, mode, true, early);
      if r.Success? {
        ElementsAreTotal(nodes, data, count - 1, wire, r.position, mode, early);
      }
    }
  }

  /** The direct children found by jumping from subtree to subtree. */
  function ChildCount(nodes: seq<Node>, level: nat, index: nat): nat
    requires index <= |nodes|
    decreases |nodes| - index
  {
    if index == |nodes| || nodes[index].level <= level then 0
    else (if nodes[index].level == level + 1 then 1 else 0) + ChildCount(nodes, level, SubtreeEnd(nodes, index))
  }

  lemma {:induction false} MembersAreTotal(nodes: seq<Node>, level: nat, index: nat, wire: Wire, position: nat,
                                           mode: Mode, early: bool)
    requires ValidSchema(nodes) && index <= |nodes| && position <= |wire.data|
    requires index < |nodes| && nodes[index].level > level ==> nodes[index].level == level + 1
    ensures match ParseMembers(nodes, level, index, wire, position, mode, early)
            case Listed(values, next, end) =>
              && |values| == ChildCount(nodes, level, index)
              && (forall k :: index <= k < next ==> nodes[k].level > level)
              && (next < |nodes| ==> nodes[next].level <= level)
              && position + |values| <= end <= |wire.data|
            case ListFailure(reason) => reason != NoRule
    decreases |nodes| - index, 3, 0
  {
    if index < |nodes| && nodes[index].level > level {
      ParserIsTotal(nodes, index, wire, position, mode, false, early);
      var r := ParseValue(nodes, index, wire, position, mode, false, early);
      if r.Success? {
        NextChildLevel(nodes, level, index);
        SubtreeEndIsFirstStop(nodes, index);
        MembersAreTotal(nodes, level, r.index, wire, r.position, mode, early);
      }
    }
  }
}
