/** The recursive value parser of src/io/typetree.c as it walks a byte stream. */
module TypeTreeReader {
  import opened Bytes
  import opened TypeTreeValues
  import opened TypeTreeSchema
  import opened TypeTreeParser
  import opened TypeTreeWire

  const PACK_BYTE_ARRAYS := 1
  const BORROW_BYTE_ARRAYS := 2

  /** What a walk reports against what the parse means. */
  predicate Reports(ok: bool, value: Value, next: nat, position: nat, r: Outcome) {
    ok == r.Success? && (ok ==> r == Success(value, next, position))
  }

  /** A list parse with `values` already read. */
  function Extend(values: seq<Value>, r: ListOutcome): ListOutcome {
    match r
    case ListFailure(reason) => ListFailure(reason)
    case Listed(more, index, position) => Listed(values + more, index, position)
  }

  lemma ExtendOne(values: seq<Value>, value: Value, r: ListOutcome)
    ensures Extend(values, Extend([value], r)) == Extend(values + [value], r)
  {
    if r.Listed? {
      assert values + ([value] + r.values) == values + [value] + r.values;
    }
  }

  lemma ExtendNone(r: ListOutcome)
    ensures Extend([], r) == r
  {
    if r.Listed? {
      assert [] + r.values == r.values;
    }
  }

  method AlignStream(stream: ByteStream, align: bool, value: Value, next: nat) returns (ok: bool)
    requires stream.Valid()
    modifies stream
    ensures stream.Valid()
    ensures Reports(ok, value, next, stream.position, AlignTail(value, next, old(stream.position), stream.wire, align))
  {
    ok := true;
    if align {
      ok := stream.Align();
    }
  }

  method ReadLeaf(node: Node, index: nat, stream: ByteStream, suppress: bool)
    returns (ok: bool, value: Value, next: nat)
    requires stream.Valid()
    modifies stream
    ensures stream.Valid()
    ensures Reports(ok, value, next, stream.position,
                    ParseLeaf(node, index, stream.wire, old(stream.position), suppress))
  {
    value, next := Value(node.name, node.typeName, NoneVal), index;
    var width := node.byteSize;
    if !(width == 1 || width == 2 || width == 4 || width == 8)
       || (width <= 2 && !IsSignedInteger(node.typeName) && !IsUnsignedInteger(node.typeName))
    {
      return false, value, next;
    }
    var word;
    ok, word := stream.ReadWord(width);
    if !ok {
      return;
    }
    var data := ScalarData(node.typeName, width, word);
    if data.None? {
      return false, value, next;
    }
    value, next := value.(data := data.value), index + 1;
    ok := AlignStream(stream, !suppress && WantsAlignment(node.metaFlags), value, next);
  }

  method ReadString(nodes: seq<Node>, index: nat, stream: ByteStream) returns (ok: bool, value: Value, next: nat)
    requires index < |nodes| && stream.Valid()
    modifies stream
    ensures stream.Valid()
    ensures Reports(ok, value, next, stream.position,
                    ParseString(nodes[index], SubtreeEnd(nodes, index), stream.wire, old(stream.position)))
  {
    var node := nodes[index];
    value, next := Value(node.name, node.typeName, NoneVal), index;
    var size, text;
    ok, size := stream.ReadWord(4);
    if !ok {
      return;
    }
    ok, text := stream.ReadBytes(size);
    if !ok {
      return;
    }
    value := value.(data := StringVal(text));
    next := SubtreeEndOf(nodes, index);
    ok := AlignStream(stream, true, value, next);
  }

  /** The value of node `index`, with the index of the node after its subtree. */
  method ReadValue(nodes: seq<Node>, index: nat, stream: ByteStream, mode: Mode, suppress: bool)
    returns (ok: bool, value: Value, next: nat)
    requires ValidSchema(nodes) && index < |nodes| && stream.Valid()
    modifies stream
    ensures stream.Valid()
    ensures Reports(ok, value, next, stream.position,
                    ParseValue(nodes, index, stream.wire, old(stream.position), mode, suppress, true))
    decreases |nodes| - index, 2, 0
  {
    if !HasChildren(nodes, index) {
      ok, value, next := ReadLeaf(nodes[index], index, stream, suppress);
    } else if nodes[index].typeName == Ascii("string") {
      ok, value, next := ReadString(nodes, index, stream);
    } else if IsArrayMarker(nodes[index + 1]) {
      ok, value, next := ReadArray(nodes, index, stream, mode, suppress);
    } else {
      assert AdmittedNode(nodes, index + 1);
      ok, value, next := ReadStruct(nodes, index, stream, mode, suppress);
    }
  }

  method ReadArray(nodes: seq<Node>, index: nat, stream: ByteStream, mode: Mode, suppress: bool)
    returns (ok: bool, value: Value, next: nat)
    requires ValidSchema(nodes) && index < |nodes| && stream.Valid()
    modifies stream
    ensures stream.Valid()
    ensures Reports(ok, value, next, stream.position,
                    ParseArray(nodes, index, stream.wire, old(stream.position), mode, suppress, true))
    decreases |nodes| - index, 1, 0
  {
    var node, data := nodes[index], index + 3;
    value, next := Value(node.name, node.typeName, NoneVal), index;
    if data >= |nodes| || nodes[index + 2].level <= node.level || nodes[data].level <= node.level {
      return false, value, next;
    }
    var size;
    ok, size := stream.ReadWord(4);
    if !ok || size > INT_MAX || size > stream.Remaining() {
      return false, value, next;
    }
    var body;
    ok, body := ReadArrayBody(nodes, data, size, stream, mode);
    if !ok {
      return;
    }
    value := value.(data := body);
    next := SubtreeEndOf(nodes, index);
    ok := AlignStream(stream, ArrayAligns(nodes, index, suppress), value, next);
  }

  predicate ReportsBody(ok: bool, body: Data, end: nat, nodes: seq<Node>, data: nat, size: nat, wire: Wire,
                        position: nat, mode: Mode)
    requires data < |nodes| && position + size <= |wire.data|
  {
    if PacksBytes(nodes, data, mode)
    then
      && ok && end == position + size
      && body == PackedVal(wire.data[position..position + size], mode == PackedCopy && size > 0)
    else
      var r := ParseElements(nodes, data, size, wire, position, mode, true);
      ok == r.Listed? && (ok ==> body.ArrayVal? && r == Listed(body.elements, data, end))
  }

  /** The data of an admitted array: contiguous bytes or one value per element. */
  method ReadArrayBody(nodes: seq<Node>, data: nat, size: nat, stream: ByteStream, mode: Mode)
    returns (ok: bool, body: Data)
    requires ValidSchema(nodes) && data < |nodes| && stream.Valid() && size <= stream.Remaining()
    modifies stream
    ensures stream.Valid()
    ensures ReportsBody(ok, body, stream.position, nodes, data, size, stream.wire, old(stream.position), mode)
    decreases |nodes| - data, 4, 0
  {
    if PacksBytes(nodes, data, mode) {
      var bytes;
      ok, bytes := stream.ReadBytes(size);
      body := PackedVal(bytes, mode == PackedCopy && size > 0);
    } else {
      var elements;
      ok, elements := ReadElements(nodes, data, size, stream, mode);
      body := ArrayVal(elements);
    }
  }

  method ReadElements(nodes: seq<Node>, data: nat, count: nat, stream: ByteStream, mode: Mode)
    returns (ok: bool, elements: seq<Value>)
    requires ValidSchema(nodes) && data < |nodes| && stream.Valid()
    modifies stream
    ensures stream.Valid()
    ensures ok == ParseElements(nodes, data, count, stream.wire, old(stream.position), mode, true).Listed?
    ensures ok ==> ParseElements(nodes, data, count, stream.wire, old(stream.position), mode, true)
                   == Listed(elements, data, stream.position)
    decreases |nodes| - data, 3, count
  {
    ghost var wire, whole := stream.wire, ParseElements(nodes, data, count, stream.wire, stream.position, mode, true);
    elements := [];
    ExtendNone(whole);
    for i := 0 to count
      invariant stream.Valid()
      invariant whole == Extend(elements, ParseElements(nodes, data, count - i, wire, stream.position, mode, true))
    {
      ghost var before := stream.position;
      var value, next;
      ok, value, next := ReadValue(nodes, data, stream, mode, true);
      if !ok {
        return;
      }
      ghost var rest := ParseElements(nodes, data, count - i - 1, wire, stream.position, mode, true);
      assert ParseElements(nodes, data, count - i, wire, before, mode, true) == Extend([value], rest);
      ExtendOne(elements, value, rest);
      elements := elements + [value];
    }
    ok := true;
  }

  /** The first of the two member passes: how many values to allocate. */
  method CountChildren(nodes: seq<Node>, level: nat, first: nat) returns (count: nat)
    requires first <= |nodes|
    ensures count == ChildCount(nodes, level, first)
  {
    count := 0;
    var current := first;
    while current < |nodes| && nodes[current].level > level
      invariant current <= |nodes|
      invariant count + ChildCount(nodes, level, current) == ChildCount(nodes, level, first)
      decreases |nodes| - current
    {
      if nodes[current].level == level + 1 {
        count := count + 1;
      }
      current := SubtreeEndOf(nodes, current);
    }
  }

  method ReadStruct(nodes: seq<Node>, index: nat, stream: ByteStream, mode: Mode, suppress: bool)
    returns (ok: bool, value: Value, next: nat)
    requires ValidSchema(nodes) && index < |nodes| && stream.Valid()
    requires HasChildren(nodes, index) && LegalNode(nodes, index + 1)
    modifies stream
    ensures stream.Valid()
    ensures Reports(ok, value, next, stream.position,
                    ParseStruct(nodes, index, stream.wire, old(stream.position), mode, suppress, true))
    decreases |nodes| - index, 1, 0
  {
    var node := nodes[index];
    value := Value(node.name, node.typeName, NoneVal);
    var count := CountChildren(nodes, node.level, index + 1);
    var members;
    ok, members, next := ReadMembers(nodes, node.level, index + 1, count, stream, mode);
    if !ok {
      return;
    }
    value := value.(data := StructVal(members));
    ok := AlignStream(stream, !suppress && WantsAlignment(node.metaFlags), value, next);
  }

  /** Fill `count` member slots: the second pass finds exactly as many children as the first. */
  method ReadMembers(nodes: seq<Node>, level: nat, first: nat, count: nat, stream: ByteStream, mode: Mode)
    returns (ok: bool, members: seq<Value>, next: nat)
    requires ValidSchema(nodes) && first <= |nodes| && stream.Valid() && count == ChildCount(nodes, level, first)
    requires first < |nodes| && nodes[first].level > level ==> nodes[first].level == level + 1
    modifies stream
    ensures stream.Valid()
    ensures ok == ParseMembers(nodes, level, first, stream.wire, old(stream.position), mode, true).Listed?
    ensures ok ==> ParseMembers(nodes, level, first, stream.wire, old(stream.position), mode, true)
                   == Listed(members, next, stream.position)
    ensures ok ==> |members| == count
    decreases |nodes| - first, 3, 0
  {
    ghost var wire, whole := stream.wire, ParseMembers(nodes, level, first, stream.wire, stream.position, mode, true);
    members, next := [], first;
    ExtendNone(whole);
    while next < |nodes| && nodes[next].level > level
      invariant stream.Valid() && first <= next <= |nodes|
      invariant whole == Extend(members, ParseMembers(nodes, level, next, wire, stream.position, mode, true))
      invariant |members| + ChildCount(nodes, level, next) == count
      invariant next < |nodes| && nodes[next].level > level ==> nodes[next].level == level + 1
      decreases |nodes| - next
    {
      ghost var child, before := next, stream.position;
      assert |members| < count;
      var value;
      ok, value, next := ReadValue(nodes, next, stream, mode, false);
      if !ok {
        return;
      }
      ParserIsTotal(nodes, child, wire, before, mode, false, true);
      NextChildLevel(nodes, level, child);
      ghost var rest := ParseMembers(nodes, level, next, wire, stream.position, mode, true);
      assert ParseMembers(nodes, level, child, wire, before, mode, true) == Extend([value], rest);
      ExtendOne(members, value, rest);
      members := members + [value];
    }
    ok := true;
  }

  /** The flags of a parse request; at most one representation of byte arrays may be chosen. */
  function ModeOf(flags: u32): Option<Mode> {
    if flags == 0 then Some(Expanded)
    else if flags == PACK_BYTE_ARRAYS then Some(PackedCopy)
    else if flags == BORROW_BYTE_ARRAYS then Some(Borrowed)
    else None
  }

  /** How byte arrays are kept for the flag words 0, 1 and 2. */
  function RequestedMode(flags: nat): Mode {
    match flags case 0 => Expanded case 1 => PackedCopy case _ => Borrowed
  }

  /** No value at all is spelled from `start` on. */
  ghost predicate NothingWritten(nodes: seq<Node>, index: nat, wire: Wire, mode: Mode, start: nat)
    requires index < |nodes|
  {
    forall v: Value, end: nat :: !Written(nodes, index, wire, mode, false, v, start, end)
  }

  lemma FailureMeansNothing(nodes: seq<Node>, index: nat, wire: Wire, mode: Mode, start: nat)
    requires ValidSchema(nodes) && index < |nodes| && start <= |wire.data|
    requires ParseValue(nodes, index, wire, start, mode, false, true).Failure?
    ensures NothingWritten(nodes, index, wire, mode, start)
  {
    forall v: Value, end: nat ensures !Written(nodes, index, wire, mode, false, v, start, end) {
      ParsesExactlyWhatIsWritten(nodes, index, wire, start, mode, false, v, end);
    }
  }

  /** `typetree_parse_value_ex`: nothing is read unless the flags and the schema are valid; otherwise
      success means the whole subtree was parsed, and failure only a short stream or an oversized count. */
  method ParseWithFlags(nodes: seq<Node>, index: int, stream: ByteStream, flags: u32)
    returns (ok: bool, value: Value, next: nat)
    requires stream.Valid()
    modifies stream
    ensures stream.Valid()
    ensures ModeOf(flags).None? || !ValidSchema(nodes) || index < 0 || index >= |nodes| ==>
      !ok && stream.position == old(stream.position)
    ensures ModeOf(flags).Some? && ValidSchema(nodes) && 0 <= index < |nodes| ==>
              Reports(ok, value, next, stream.position,
                      ParseValue(nodes, index, stream.wire, old(stream.position), ModeOf(flags).value, false, true))
    ensures ok ==> next == SubtreeEnd(nodes, index) && old(stream.position) < stream.position
    ensures ok ==>
              && flags <= 2 && ValidSchema(nodes) && 0 <= index < |nodes|
              && Written(nodes, index, stream.wire, RequestedMode(flags), false, value, old(stream.position),
                         stream.position)
    ensures !ok && flags <= 2 && ValidSchema(nodes) && 0 <= index < |nodes| ==>
              NothingWritten(nodes, index, stream.wire, RequestedMode(flags), old(stream.position))
  {
    value, next := Value([], [], NoneVal), 0;
    var mode := ModeOf(flags);
    if mode.None? {
      return false, value, next;
    }
    ok := ValidateSchema(nodes);
    if !ok || index < 0 || index >= |nodes| {
      return false, value, next;
    }
    ParserIsTotal(nodes, index, stream.wire, stream.position, mode.value, false, true);
    ghost var start := stream.position;
    ok, value, next := ReadValue(nodes, index, stream, mode.value, false);
    if ok {
      ParsesExactlyWhatIsWritten(nodes, index, stream.wire, start, mode.value, false, value, stream.position);
    } else {
      FailureMeansNothing(nodes, index, stream.wire, mode.value, start);
    }
  }
}
