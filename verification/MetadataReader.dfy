/** The metered metadata cursor of src/io/serialized_metadata_reader_internal.c. Each read is given twice:
    as a function of the bytes, and as a method that also charges its width to a work budget. A method
    succeeds exactly when the function does and the whole charge fits. */
module MetadataReader {
  import opened Bytes

  /** Immutable metadata: the mapped bytes, where the metadata ends, and the byte budget from an origin. */
  datatype Input = Input(bytes: seq<byte>, metadataEnd: u64, origin: u64, maxBytes: u64, bigEndian: bool)

  datatype Reason = MetadataEnd | MappingEnd | ByteLimit | WorkLimit | NegativeCount | TypeShape | TreeShape | NodeLimit
                  | StringLimit | TerminatedLimit | CountLimit | DependencyLimit | ObjectRange | ObjectType
                  | NotExhausted

  datatype Span = Span(offset: nat, size: nat)

  /** A scan's position and running totals: tree nodes, tree string bytes, and one more aggregate
      (dependency words or terminated string bytes), with the table rows completed. */
  datatype At = At(position: nat, nodes: nat, strings: nat, extra: nat, rows: nat)

  /** What a scan has been charged for: every byte consumed and every row completed. */
  function Weight(at: At): nat {
    at.position + at.rows
  }

  datatype Reply<+T> = Got(value: T, at: At) | Refused(reason: Reason)

  // ----- Reads as functions -----

  /** Metadata, mapping and byte budget, in that order. */
  function Admit(input: Input, position: nat, width: nat): Option<Reason> {
    if position > input.metadataEnd || width > input.metadataEnd - position then Some(MetadataEnd)
    else if position > |input.bytes| || width > |input.bytes| - position then Some(MappingEnd)
    else if position < input.origin || position - input.origin > input.maxBytes
         || width > input.maxBytes - (position - input.origin) then Some(ByteLimit)
    else None
  }

  function Take(input: Input, at: At, width: nat): (r: Reply<Span>)
    ensures r.Got? ==> r.value == Span(at.position, width) && r.at == at.(position := at.position + width)
    ensures r.Got? ==> at.position + width <= |input.bytes| && at.position + width <= input.metadataEnd
  {
    match Admit(input, at.position, width)
    case Some(reason) => Refused(reason)
    case None => Got(Span(at.position, width), at.(position := at.position + width))
  }

  function Content(input: Input, span: Span): seq<byte>
    requires span.offset + span.size <= |input.bytes|
  {
    input.bytes[span.offset..span.offset + span.size]
  }

  datatype Word = Word(source: Span, bits: u32)

  function TakeWord(input: Input, at: At): (r: Reply<Word>)
    ensures r.Got? ==> r.at == at.(position := at.position + 4) && r.value.source == Span(at.position, 4)
  {
    match Take(input, at, 4)
    case Refused(reason) => Refused(reason)
    case Got(span, next) => Got(Word(span, Decode32(Content(input, span), input.bigEndian)), next)
  }

  function TakeCount(input: Input, at: At): (r: Reply<Word>)
    ensures r.Got? ==>
      r.at == at.(position := at.position + 4) && r.value.source == Span(at.position, 4)
      && r.value.bits <= INT_MAX
  {
    match TakeWord(input, at)
    case Refused(reason) => Refused(reason)
    case Got(word, next) => if word.bits > INT_MAX then Refused(NegativeCount) else Got(word, next)
  }

  /** The prefix every type row starts with. */
  datatype TypePrefix = TypePrefix(classId: Word, stripped: Span, strippedRaw: byte, scriptIndex: Span, scriptBits: u16,
                                   scriptHash: Option<Span>, typeHash: Span)

  const MONO_BEHAVIOUR: int := 114

  /** Whether a script hash follows, from the class and the sign of the script index. */
  function HashShape(classBits: u32, scriptBits: u16): Option<bool> {
    var negative := scriptBits >= 0x8000;
    if classBits == UINT32_MAX && negative then None else Some(classBits == MONO_BEHAVIOUR || !negative)
  }

  function TakeTypePrefix(input: Input, at: At): (r: Reply<TypePrefix>)
    ensures r.Got? ==> r.at == at.(position := at.position + if r.value.scriptHash.Some? then 39 else 23)
  {
    match TakeWord(input, at)
    case Refused(reason) => Refused(reason)
    case Got(classId, at1) =>
      match Take(input, at1, 1)
      case Refused(reason) => Refused(reason)
      case Got(stripped, at2) =>
        match Take(input, at2, 2)
        case Refused(reason) => Refused(reason)
        case Got(scriptIndex, at3) => TakeHashes(input, classId, stripped, scriptIndex, at3)
  }

  function TakeHashes(input: Input, classId: Word, stripped: Span, scriptIndex: Span, at: At): (r: Reply<TypePrefix>)
    requires stripped.size == 1 && stripped.offset < |input.bytes|
    requires scriptIndex.size == 2 && scriptIndex.offset + 2 <= |input.bytes|
    ensures r.Got? ==> r.at == at.(position := at.position + if r.value.scriptHash.Some? then 32 else 16)
  {
    var raw, bits := Content(input, stripped)[0], Decode16(Content(input, scriptIndex), input.bigEndian);
    match HashShape(classId.bits, bits)
    case None => Refused(TypeShape)
    case Some(hasHash) =>
      match (if hasHash then Take(input, at, 16) else Got(Span(at.position, 0), at))
      case Refused(reason) => Refused(reason)
      case Got(scriptHash, at1) =>
        match Take(input, at1, 16)
        case Refused(reason) => Refused(reason)
        case Got(typeHash, next) =>
          Got(TypePrefix(classId, stripped, raw, scriptIndex, bits, if hasHash then Some(scriptHash) else None,
                         typeHash), next)
  }

  datatype Tree = Tree(nodeCount: Word, stringCount: Word, nodes: Span, strings: Span)

  const NODE_BYTES: nat := 32

  // ----- Alignment -----

  const V22_HEADER_SIZE: nat := 48
  const METADATA_ALIGNMENT: nat := 4

  /** The distance to the next multiple of four from the metadata's own origin. */
  function PaddingAt(position: nat): nat {
    if position < V22_HEADER_SIZE || (position - V22_HEADER_SIZE) % METADATA_ALIGNMENT == 0 then 0
    else METADATA_ALIGNMENT - (position - V22_HEADER_SIZE) % METADATA_ALIGNMENT
  }

  // ----- Trees -----

  datatype TreeLimits = TreeLimits(maxNodes: u64, maxStrings: u64)

  function TakeTree(input: Input, limits: TreeLimits, at: At): (r: Reply<Tree>)
    ensures r.Got? ==>
      var n, s := r.value.nodeCount.bits, r.value.stringCount.bits;
      r.at == at.(position := at.position + 8 + NODE_BYTES * n + s, nodes := at.nodes + n, strings := at.strings + s)
  {
    match TakeWord(input, at)
    case Refused(reason) => Refused(reason)
    case Got(nodeCount, next) =>
      if nodeCount.bits == 0 then Refused(TreeShape)
      else if at.nodes + nodeCount.bits > limits.maxNodes then Refused(NodeLimit)
      else TakeTreeBody(input, limits, nodeCount, next.(nodes := at.nodes + nodeCount.bits))
  }

  function TakeTreeBody(input: Input, limits: TreeLimits, nodeCount: Word, at: At): (r: Reply<Tree>)
    ensures r.Got? ==>
      var n, s := nodeCount.bits, r.value.stringCount.bits;
      r.value.nodeCount == nodeCount
      && r.at == at.(position := at.position + 4 + NODE_BYTES * n + s, strings := at.strings + s)
  {
    match TakeWord(input, at)
    case Refused(reason) => Refused(reason)
    case Got(stringCount, at1) =>
      if at.strings + stringCount.bits > limits.maxStrings then Refused(StringLimit)
      else
        match Take(input, at1.(strings := at.strings + stringCount.bits), NODE_BYTES * nodeCount.bits)
        case Refused(reason) => Refused(reason)
        case Got(nodes, at2) =>
          match Take(input, at2, stringCount.bits)
          case Refused(reason) => Refused(reason)
          case Got(strings, next) => Got(Tree(nodeCount, stringCount, nodes, strings), next)
  }

  /** Through the next NUL, which the span keeps; `start` is where the string began. */
  function TakeString(input: Input, maxTerminated: u64, start: nat, at: At): (r: Reply<Span>)
    requires start <= at.position
    ensures r.Got? ==> at.position < r.at.position <= |input.bytes| && r.value == Span(start, r.at.position - start)
    ensures r.Got? ==> r.at == at.(position := r.at.position, extra := at.extra + (r.at.position - at.position))
    ensures r.Got? ==> input.bytes[r.at.position - 1] == 0 && 0 !in input.bytes[at.position..r.at.position - 1]
    decreases |input.bytes| - at.position
  {
    match Admit(input, at.position, 1)
    case Some(reason) => Refused(reason)
    case None =>
      if at.extra >= maxTerminated then Refused(TerminatedLimit)
      else
        var next := at.(position := at.position + 1, extra := at.extra + 1);
        if input.bytes[at.position] == 0 then Got(Span(start, next.position - start), next)
        else
          var r := TakeString(input, maxTerminated, start, next);
          assert r.Got? ==> input.bytes[at.position..r.at.position - 1]
                            == [input.bytes[at.position]] + input.bytes[next.position..r.at.position - 1];
          r
  }

  // ----- Reads as metered methods -----

  class Reader {
    const input: Input
    const maxWork: u64
    var at: At
    var work: nat
    var reason: Reason

    ghost predicate Valid()
      reads this
    {
      work <= maxWork
    }

    constructor (input: Input, maxWork: u64, at: At, work: nat)
      requires work <= maxWork
      ensures Valid() && this.input == input && this.maxWork == maxWork && this.at == at && this.work == work
    {
      this.input, this.maxWork, this.at, this.work, this.reason := input, maxWork, at, work, WorkLimit;
    }

    /** The read did what the function says, or its charge did not fit: nothing else can stop it. */
    twostate predicate Ran<T>(new out: Option<T>, new reply: Reply<T>)
      reads this
    {
      RanSince(out, reply, old(at), old(work))
    }

    /** The same, from an earlier position and charge. */
    ghost predicate RanSince<T>(out: Option<T>, reply: Reply<T>, start: At, charged: nat)
      reads this
    {
      var ran :=
        && charged <= work <= maxWork
        && out.Some? == (reply.Got? && charged + Weight(reply.at) <= maxWork + Weight(start))
        && (out.Some? ==> reply == Got(out.value, at) && work == charged + Weight(at) - Weight(start))
        && (out.None? ==> reason == WorkLimit || reply == Refused(reason));
      ran
    }

    method TakeSpan(width: nat) returns (out: Option<Span>)
      requires Valid()
      modifies this
      ensures Valid() && Ran(out, Take(input, old(at), width))
    {
      var refusal := Admit(input, at.position, width);
      if refusal.Some? {
        reason := refusal.value;
        return None;
      }
      if width > maxWork - work {
        reason := WorkLimit;
        return None;
      }
      work := work + width;
      out := Some(Span(at.position, width));
      at := at.(position := at.position + width);
    }

    method ReadWord() returns (out: Option<Word>)
      requires Valid()
      modifies this
      ensures Valid() && Ran(out, TakeWord(input, old(at)))
    {
      var span := TakeSpan(4);
      out := if span.None? then None else Some(Word(span.value, Decode32(Content(input, span.value), input.bigEndian)));
    }

    method ReadCount() returns (out: Option<Word>)
      requires Valid()
      modifies this
      ensures Valid() && Ran(out, TakeCount(input, old(at)))
    {
      out := ReadWord();
      if out.Some? && out.value.bits > INT_MAX {
        reason := NegativeCount;
        out := None;
      }
    }

    method ReadTypePrefix() returns (out: Option<TypePrefix>)
      requires Valid()
      modifies this
      ensures Valid() && Ran(out, TakeTypePrefix(input, old(at)))
    {
      var classId := ReadWord();
      if classId.None? {
        return None;
      }
      var stripped := TakeSpan(1);
      if stripped.None? {
        return None;
      }
      var scriptIndex := TakeSpan(2);
      if scriptIndex.None? {
        return None;
      }
      out := ReadHashes(classId.value, stripped.value, scriptIndex.value);
    }

    method ReadHashes(classId: Word, stripped: Span, scriptIndex: Span) returns (out: Option<TypePrefix>)
      requires Valid()
      requires stripped.size == 1 && stripped.offset < |input.bytes|
      requires scriptIndex.size == 2 && scriptIndex.offset + 2 <= |input.bytes|
      modifies this
      ensures Valid() && Ran(out, TakeHashes(input, classId, stripped, scriptIndex, old(at)))
    {
      var raw, bits := Content(input, stripped)[0], Decode16(Content(input, scriptIndex), input.bigEndian);
      var shape := HashShape(classId.bits, bits);
      if shape.None? {
        reason := TypeShape;
        return None;
      }
      var scriptHash := None;
      if shape.value {
        scriptHash := TakeSpan(16);
        if scriptHash.None? {
          return None;
        }
      }
      var typeHash := TakeSpan(16);
      if typeHash.None? {
        return None;
      }
      out := Some(TypePrefix(classId, stripped, raw, scriptIndex, bits, scriptHash, typeHash.value));
    }

    method ReadTree(limits: TreeLimits) returns (out: Option<Tree>)
      requires Valid()
      modifies this
      ensures Valid() && Ran(out, TakeTree(input, limits, old(at)))
    {
      var nodeCount := ReadWord();
      if nodeCount.None? {
        return None;
      }
      if nodeCount.value.bits == 0 {
        reason := TreeShape;
        return None;
      }
      if at.nodes + nodeCount.value.bits > limits.maxNodes {
        reason := NodeLimit;
        return None;
      }
      at := at.(nodes := at.nodes + nodeCount.value.bits);
      out := ReadTreeBody(limits, nodeCount.value);
    }

    method ReadTreeBody(limits: TreeLimits, nodeCount: Word) returns (out: Option<Tree>)
      requires Valid()
      modifies this
      ensures Valid() && Ran(out, TakeTreeBody(input, limits, nodeCount, old(at)))
    {
      var stringCount := ReadWord();
      if stringCount.None? {
        return None;
      }
      if at.strings + stringCount.value.bits > limits.maxStrings {
        reason := StringLimit;
        return None;
      }
      at := at.(strings := at.strings + stringCount.value.bits);
      var nodes := TakeSpan(NODE_BYTES * nodeCount.bits);
      if nodes.None? {
        return None;
      }
      var strings := TakeSpan(stringCount.value.bits);
      if strings.None? {
        return None;
      }
      out := Some(Tree(nodeCount, stringCount.value, nodes.value, strings.value));
    }

    /** `serialized_metadata_read_terminated_string`, one admitted and charged byte at a time. */
    method ReadString(maxTerminated: u64) returns (out: Option<Span>)
      requires Valid()
      modifies this
      ensures Valid() && Ran(out, TakeString(input, maxTerminated, old(at).position, old(at)))
    {
      var start := at.position;
      ghost var before, charged := at, work;
      ghost var whole := TakeString(input, maxTerminated, start, before);
      while true
        invariant Valid() && start <= at.position && at.rows == before.rows
        invariant whole == TakeString(input, maxTerminated, start, at)
        invariant work == charged + Weight(at) - Weight(before)
        decreases |input.bytes| - at.position
      {
        var refusal := Admit(input, at.position, 1);
        if refusal.Some? {
          reason := refusal.value;
          return None;
        }
        if at.extra >= maxTerminated {
          reason := TerminatedLimit;
          return None;
        }
        if 1 > maxWork - work {
          reason := WorkLimit;
          return None;
        }
        work := work + 1;
        var b := input.bytes[at.position];
        at := at.(position := at.position + 1, extra := at.extra + 1);
        if b == 0 {
          return Some(Span(start, at.position - start));
        }
      }
    }

    /** Charge the one unit that completes a table row. */
    method CompleteRow<R>(row: Option<R>, ghost reply: Reply<R>, start: nat, ghost before: At, ghost charged: nat)
      returns (out: Option<Row<R>>)
      requires Valid() && RanSince(row, reply, before, charged) && before.position == start
      modifies this
      ensures Valid() && RanSince(out, Completed(start, reply), before, charged)
    {
      if row.None? {
        return None;
      }
      if 1 > maxWork - work {
        reason := WorkLimit;
        return None;
      }
      work := work + 1;
      at := at.(rows := at.rows + 1);
      out := Some(Row(row.value, Span(start, if at.position < start then 0 else at.position - start)));
    }
  }

  // ----- Tables of rows -----

  /** A row and the extent of bytes it was read from. */
  datatype Row<+R> = Row(value: R, source: Span)

  /** One more row: the extent consumed, and one unit of weight for completing it. */
  function Completed<R>(start: nat, reply: Reply<R>): Reply<Row<R>> {
    match reply
    case Refused(reason) => Refused(reason)
    case Got(value, next) =>
      Got(Row(value, Span(start, if next.position < start then 0 else next.position - start)),
          next.(rows := next.rows + 1))
  }

  type Step<!R> = At -> Reply<R>

  /** Reading a row never goes back, and completes no row itself. */
  ghost predicate Advances<R(!new)>(step: Step<R>) {
    forall at {:trigger step(at)} :: step(at).Got? ==>
      at.position <= step(at).at.position && at.rows == step(at).at.rows
  }

  function TakeRows<R>(step: Step<R>, count: nat, at: At): Reply<seq<Row<R>>> {
    if count == 0 then Got([], at)
    else
      match Completed(at.position, step(at))
      case Refused(reason) => Refused(reason)
      case Got(row, next) =>
        match TakeRows(step, count - 1, next)
        case Refused(reason) => Refused(reason)
        case Got(rows, end) => Got([row] + rows, end)
  }

  /** The extents follow each other without gap or overlap from `start` to `end`. */
  predicate Tiles(spans: seq<Span>, start: nat, end: nat) {
    if spans == [] then start == end
    else spans[0].offset == start && Tiles(spans[1..], start + spans[0].size, end)
  }

  function Sources<R>(rows: seq<Row<R>>): (r: seq<Span>)
    ensures |r| == |rows|
  {
    seq(|rows|, i requires 0 <= i < |rows| => rows[i].source)
  }

  /** The rows of a table tile the bytes it consumed, and each adds one unit of weight. */
  lemma {:induction false} RowsTile<R(!new)>(step: Step<R>, count: nat, at: At)
    requires Advances(step) && TakeRows(step, count, at).Got?
    ensures var r := TakeRows(step, count, at);
            && |r.value| == count && at.position <= r.at.position && r.at.rows == at.rows + count
            && Tiles(Sources(r.value), at.position, r.at.position)
    decreases count
  {
    if count > 0 {
      var row := Completed(at.position, step(at));
      RowsTile(step, count - 1, row.at);
      var r := TakeRows(step, count, at);
      assert Sources(r.value)[1..] == Sources(TakeRows(step, count - 1, row.at).value);
    }
  }

  /** The rows read so far in front of the rows still to come. */
  function Behind<R>(done: seq<Row<R>>, reply: Reply<seq<Row<R>>>): Reply<seq<Row<R>>> {
    match reply
    case Refused(reason) => Refused(reason)
    case Got(more, at) => Got(done + more, at)
  }

  lemma NoneBehind<R>(done: seq<Row<R>>, reply: Reply<seq<Row<R>>>)
    ensures Behind([], reply) == reply && done + [] == done
  {
    if reply.Got? {
      assert [] + reply.value == reply.value;
    }
  }

  /** One row less to come; the weight of the whole table bounds the weight so far. */
  lemma NextRow<R(!new)>(step: Step<R>, done: seq<Row<R>>, count: nat, at: At)
    requires count > 0 && Advances(step)
    ensures var whole := Behind(done, TakeRows(step, count, at));
            match Completed(at.position, step(at))
            case Refused(reason) => whole == Refused(reason)
            case Got(row, next) =>
              whole == Behind(done + [row], TakeRows(step, count - 1, next))
                && (whole.Got? ==> Weight(next) <= Weight(whole.at))
  {
    var row := Completed(at.position, step(at));
    if row.Got? {
      var rest := TakeRows(step, count - 1, row.at);
      if rest.Got? {
        RowsTile(step, count - 1, row.at);
        assert done + ([row.value] + rest.value) == done + [row.value] + rest.value;
      }
    }
  }

  /** A read that stops here: it cannot succeed within the budget, and the reason is the budget or its own. */
  predicate Stops<R>(reply: Reply<R>, reason: Reason, room: int) {
    (reply.Got? ==> Weight(reply.at) > room) && (reason == WorkLimit || reply == Refused(reason))
  }

  /** The state of a table loop: the rows read so far lead to the whole table, and `room` is the weight the
      budget still allows. */
  ghost predicate Going<R>(step: Step<R>, whole: Reply<seq<Row<R>>>, rows: seq<Row<R>>, count: nat, at: At, left: int,
                           room: int) {
    var going := whole == Behind(rows, TakeRows(step, count, at)) && 0 <= left == room - Weight(at);
    going
  }

  lemma GoStart<R>(step: Step<R>, count: nat, at: At, left: nat)
    ensures Going(step, TakeRows(step, count, at), [], count, at, left, left + Weight(at))
  {
    NoneBehind([], TakeRows(step, count, at));
  }

  lemma GoOn<R(!new)>(step: Step<R>, whole: Reply<seq<Row<R>>>, rows: seq<Row<R>>, count: nat, at: At, left: int,
                      room: int, row: Row<R>, next: At, nextLeft: int)
    requires Going(step, whole, rows, count, at, left, room) && count > 0 && Advances(step)
    requires Completed(at.position, step(at)) == Got(row, next) && 0 <= nextLeft == left - (Weight(next) - Weight(at))
    ensures Going(step, whole, rows + [row], count - 1, next, nextLeft, room)
  {
    NextRow(step, rows, count, at);
  }

  /** When the next row stops, so does the whole table. */
  lemma GoStop<R(!new)>(step: Step<R>, whole: Reply<seq<Row<R>>>, rows: seq<Row<R>>, count: nat, at: At, left: int,
                        room: int, reason: Reason)
    requires Going(step, whole, rows, count, at, left, room) && count > 0 && Advances(step)
    requires Stops(Completed(at.position, step(at)), reason, room)
    ensures Stops(whole, reason, room)
  {
    NextRow(step, rows, count, at);
  }

  lemma GoEnd<R>(step: Step<R>, whole: Reply<seq<Row<R>>>, rows: seq<Row<R>>, at: At, left: int, room: int)
    requires Going(step, whole, rows, 0, at, left, room)
    ensures whole == Got(rows, at) && 0 <= left == room - Weight(at)
  {
    NoneBehind(rows, whole);
  }

  lemma {:induction false} TilesJoin(a: seq<Span>, b: seq<Span>, start: nat, middle: nat, end: nat)
    requires Tiles(a, start, middle) && Tiles(b, middle, end)
    ensures Tiles(a + b, start, end)
  {
    if a == [] {
      assert a + b == b;
    } else {
      TilesJoin(a[1..], b, start + a[0].size, middle, end);
      assert (a + b)[1..] == a[1..] + b;
    }
  }

  /** A count word and that many rows. */
  datatype Table<+R> = Table(count: Word, rows: seq<Row<R>>)

  function TakeTable<R>(input: Input, step: Step<R>, maximum: nat, at: At): Reply<Table<R>> {
    match TakeCount(input, at)
    case Refused(reason) => Refused(reason)
    case Got(count, at1) =>
      if count.bits > maximum then Refused(CountLimit)
      else
        match TakeRows(step, count.bits, at1)
        case Refused(reason) => Refused(reason)
        case Got(rows, next) => Got(Table(count, rows), next)
  }

  function TableFields<R>(table: Table<R>): seq<Span> {
    [table.count.source] + Sources(table.rows)
  }

  lemma TableTiles<R(!new)>(input: Input, step: Step<R>, maximum: nat, at: At)
    requires Advances(step) && TakeTable(input, step, maximum, at).Got?
    ensures var r := TakeTable(input, step, maximum, at);
            && |r.value.rows| == r.value.count.bits && at.position + 4 <= r.at.position
            && r.at.rows == at.rows + |r.value.rows| && Tiles(TableFields(r.value), at.position, r.at.position)
  {
    var count := TakeCount(input, at);
    RowsTile(step, count.value.bits, count.at);
    assert [count.value.source][1..] == [];
    assert Tiles([count.value.source], at.position, count.at.position);
    TilesJoin([count.value.source], Sources(TakeTable(input, step, maximum, at).value.rows), at.position,
              count.at.position, TakeTable(input, step, maximum, at).at.position);
  }
}
