/** The registry file format: a strict printer and parser (src/io/typetree_schema_registry.c).
    Every text is written in front of the text that follows it, so each layer is read off on its own. */
module RegistryFormat {
  import opened Bytes
  import opened RegistryWords
  import opened RegistryKeys
  import opened RegistryRecords
  import opened SchemaRegistry
  import opened TypeTreeSchema
  import opened SchemaNames

  const IDENTITY := [4, 4]
  const NUMBERS := [4, 4, 2, 2]
  const COUNTS := [4, 4, 4, 4, 4, 4, 4]
  const NODE := [2, 1, 1, 4, 4, 4, 4, 4, 8]
  const DEPENDENCY := [4]

  // ----- Integers -----

  function Unsigned32(x: i32): u32 {
    if x < 0 then x + 0x1_0000_0000 else x
  }

  function Signed32(x: u32): i32 {
    if x < 0x8000_0000 then x else x - 0x1_0000_0000
  }

  function KeyFlags(key: Key): (r: u16)
    ensures r < 8
  {
    (if key.hasScriptHash then 1 else 0) + (if key.refType then 2 else 0) + (if key.stripped then 4 else 0)
  }

  // ----- Printing -----

  function NodeWords(node: Node): (r: seq<nat>)
    ensures |r| == 9
  {
    [node.version, node.level, node.typeFlags as nat, node.typeOffset, node.nameOffset, Unsigned32(node.byteSize),
     node.index,
     node.metaFlags, node.refTypeHash]
  }

  function NodesText(nodes: seq<Node>, rest: seq<byte>): seq<byte> {
    if nodes == [] then rest else PutWords(NODE, NodeWords(nodes[0])) + NodesText(nodes[1..], rest)
  }

  function DependenciesText(dependencies: seq<i32>, rest: seq<byte>): seq<byte> {
    if dependencies == [] then rest
    else PutWords(DEPENDENCY, [Unsigned32(dependencies[0])]) + DependenciesText(dependencies[1..], rest)
  }

  /** The stored name, empty when absent. */
  function NameText(name: Option<CString>): CString {
    if name.Some? then name.value else []
  }

  function BodyText(schema: Schema): seq<byte> {
    NodesText(schema.nodes, schema.strings + DependenciesText(schema.dependencies,
      NameText(schema.className) + (NameText(schema.nameSpace) + NameText(schema.assembly))))
  }

  function CountWords(schema: Schema): (r: seq<nat>)
    ensures |r| == 7
  {
    [if schema.stripped then 1 else 0,
     |schema.nodes|, |schema.strings|, |schema.dependencies|, |NameText(schema.className)|,
     |NameText(schema.nameSpace)|, |NameText(schema.assembly)|]
  }

  function NumberWords(key: Key): (r: seq<nat>)
    ensures |r| == 4
  {
    [Unsigned32(key.classId), Unsigned32(key.typeId), key.scriptIndex, KeyFlags(key)]
  }

  function NumbersText(key: Key, counts: seq<nat>, body: seq<byte>): seq<byte>
    requires |counts| == 7
  {
    PutWords(NUMBERS, NumberWords(key)) + (key.scriptHash + (key.typeHash + (PutWords(COUNTS, counts) + body)))
  }

  function FixedText(key: Key, counts: seq<nat>, body: seq<byte>): seq<byte>
    requires |counts| == 7
  {
    PutWords(IDENTITY, [key.fileVersion, |key.unity|]) + (key.unity + NumbersText(key, counts, body))
  }

  function Payload(e: Entry): seq<byte> {
    FixedText(e.key, CountWords(e.schema), BodyText(e.schema))
  }

  function FileText(ctx: Context, entries: seq<Entry>): seq<byte> {
    Seal(ctx.digest, |entries|, RecordsText(Payload, entries))
  }

  // ----- Parsing -----

  /** The fixed fields of a record: its key and the schema flags and counts. */
  datatype Fixed = Fixed(key: Key, counts: seq<u32>)

  predicate FixedShape(f: Fixed) {
    |f.counts| == 7
  }

  function Counts(words: seq<nat>): (r: seq<u32>)
    requires forall i {:trigger words[i]} :: 0 <= i < |words| ==> words[i] < 0x1_0000_0000
    ensures r == words
  {
    words
  }

  lemma FourByteWords(widths: seq<nat>, words: seq<nat>)
    requires Fit(widths, words) && forall i {:trigger widths[i]} :: 0 <= i < |widths| ==> widths[i] == 4
    ensures forall i {:trigger words[i]} :: 0 <= i < |words| ==> words[i] < 0x1_0000_0000
  {
    PowersOf256();
    forall i | 0 <= i < |words| ensures words[i] < 0x1_0000_0000 {
      assert widths[i] == 4;
    }
  }

  function TakeFixed(s: seq<byte>): (r: Reading<Fixed>)
    ensures r.Done? ==> FixedShape(r.value)
  {
    match TakeWords(IDENTITY, s)
    case Short => Fail(InvalidFormat)
    case Taken(w, s1) =>
      WordsPrintBack(IDENTITY, s);
      FourByteWords(IDENTITY, w);
      if w[1] == 0 then Fail(InvalidFormat)
      else if w[1] > MAX_UNITY_VERSION then Fail(LimitExceeded)
      else
        match TakeBytes(w[1], s1)
        case Short => Fail(InvalidFormat)
        case Taken(unity, s2) => if 0 in unity then Fail(InvalidFormat) else TakeNumbers(w[0], unity, s2)
  }

  function TakeNumbers(fileVersion: u32, unity: seq<byte>, s: seq<byte>): (r: Reading<Fixed>)
    ensures r.Done? ==> FixedShape(r.value)
  {
    match TakeWords(NUMBERS, s)
    case Short => Fail(InvalidFormat)
    case Taken(w, s1) =>
      NumbersFit(s);
      if w[3] >= 8 then Fail(InvalidFormat)
      else
        match TakeBytes(HASH_SIZE, s1)
        case Short => Fail(InvalidFormat)
        case Taken(scriptHash, s2) =>
          match TakeBytes(HASH_SIZE, s2)
          case Short => Fail(InvalidFormat)
          case Taken(typeHash, s3) => TakeCounts(KeyOf(fileVersion, unity, w, scriptHash, typeHash), s3)
  }

  lemma NumbersFit(s: seq<byte>)
    requires TakeWords(NUMBERS, s).Taken?
    ensures var w := TakeWords(NUMBERS, s).value;
            |w| == 4 && w[0] < 0x1_0000_0000 && w[1] < 0x1_0000_0000 && w[2] < 0x1_0000 && w[3] < 0x1_0000
  {
    WordsPrintBack(NUMBERS, s);
    PowersOf256();
    var w := TakeWords(NUMBERS, s).value;
    assert NUMBERS[0] == 4 && NUMBERS[1] == 4 && NUMBERS[2] == 2 && NUMBERS[3] == 2;
    assert w[0] < Pow256(NUMBERS[0]) && w[1] < Pow256(NUMBERS[1]) && w[2] < Pow256(NUMBERS[2])
      && w[3] < Pow256(NUMBERS[3]);
  }

  function KeyOf(fileVersion: u32, unity: seq<byte>, w: seq<nat>, scriptHash: Hash, typeHash: Hash): Key
    requires |w| == 4 && w[0] < 0x1_0000_0000 && w[1] < 0x1_0000_0000 && w[2] < 0x1_0000
  {
    Key(fileVersion, unity, Signed32(w[0]), Signed32(w[1]), w[2], w[3] % 2 == 1, w[3] / 4 % 2 == 1, w[3] / 2 % 2 == 1,
        scriptHash, typeHash)
  }

  function TakeCounts(key: Key, s: seq<byte>): (r: Reading<Fixed>)
    ensures r.Done? ==> FixedShape(r.value)
  {
    match TakeWords(COUNTS, s)
    case Short => Fail(InvalidFormat)
    case Taken(w, rest) =>
      WordsPrintBack(COUNTS, s);
      FourByteWords(COUNTS, w);
      if w[0] >= 2 then Fail(InvalidFormat) else Done(Fixed(key, Counts(w)), rest)
  }

  /** The checks between the fixed fields and the body: limits, the key, and its place after the last one. */
  function CheckFixed(f: Fixed, last: Option<Key>): Status
    requires FixedShape(f)
  {
    if f.counts[1] == 0 || f.counts[1] > MAX_NODES || f.counts[2] > MAX_STRINGS || f.counts[3] > MAX_DEPENDENCIES
       || f.counts[4] > MAX_REF_STRING || f.counts[5] > MAX_REF_STRING || f.counts[6] > MAX_REF_STRING
    then LimitExceeded
    else if CheckKey(f.key) != Ok then CheckKey(f.key)
    else if last.Some? && CompareKeys(last.value, f.key) >= 0 then InvalidFormat
    else Ok
  }

  function NodeOf(w: seq<nat>): Node
    requires Fit(NODE, w)
  {
    NodeFits(w);
    Node(w[0], w[1], w[2] as byte, w[3], w[4], Signed32(w[5]), w[6], w[7], w[8], [], [])
  }

  lemma NodeFits(w: seq<nat>)
    requires Fit(NODE, w)
    ensures |w| == 9 && w[0] < 0x1_0000 && w[1] < 0x100 && w[2] < 0x100 && w[8] < 0x1_0000_0000_0000_0000
    ensures forall i {:trigger w[i]} :: 3 <= i < 8 ==> w[i] < 0x1_0000_0000
  {
    PowersOf256();
    assert NODE[0] == 2 && NODE[1] == 1 && NODE[2] == 1 && NODE[8] == 8;
    assert w[0] < Pow256(NODE[0]) && w[1] < Pow256(NODE[1]) && w[2] < Pow256(NODE[2]) && w[8] < Pow256(NODE[8]);
    forall i | 3 <= i < 8 ensures w[i] < 0x1_0000_0000 {
      assert NODE[i] == 4 && w[i] < Pow256(NODE[i]);
    }
  }

  /** `count` node records, their names not yet bound. */
  function TakeNodes(count: nat, s: seq<byte>): (r: Taken<seq<Node>>)
    ensures r.Taken? ==> |r.value| == count
  {
    if count == 0 then Taken([], s)
    else
      match TakeWords(NODE, s)
      case Short => Short
      case Taken(w, s1) =>
        WordsPrintBack(NODE, s);
        match TakeNodes(count - 1, s1)
        case Short => Short
        case Taken(nodes, rest) => Taken([NodeOf(w)] + nodes, rest)
  }

  function TakeDependencies(count: nat, s: seq<byte>): (r: Taken<seq<i32>>)
    ensures r.Taken? ==> |r.value| == count
  {
    if count == 0 then Taken([], s)
    else
      match TakeWords(DEPENDENCY, s)
      case Short => Short
      case Taken(w, s1) =>
        WordsPrintBack(DEPENDENCY, s);
        FourByteWords(DEPENDENCY, w);
        match TakeDependencies(count - 1, s1)
        case Short => Short
        case Taken(more, rest) => Taken([Signed32(w[0])] + more, rest)
  }

  function TakeName(size: nat, s: seq<byte>): Taken<CString> {
    match TakeBytes(size, s)
    case Short => Short
    case Taken(name, rest) => if 0 in name then Short else Taken(name, rest)
  }

  datatype Names = Names(className: Option<CString>, nameSpace: Option<CString>, assembly: Option<CString>)

  /** The names of a reference type; every other type must announce none. */
  function TakeNames(refType: bool, counts: seq<nat>, s: seq<byte>): Taken<Names>
    requires |counts| == 7
  {
    if !refType
    then (if counts[4] != 0 || counts[5] != 0 || counts[6] != 0 then Short else Taken(Names(None, None, None), s))
    else
      match TakeName(counts[4], s)
      case Short => Short
      case Taken(c, s1) =>
        match TakeName(counts[5], s1)
        case Short => Short
        case Taken(n, s2) =>
          match TakeName(counts[6], s2)
          case Short => Short
          case Taken(a, rest) => Taken(Names(Some(c), Some(n), Some(a)), rest)
  }

  /** The schema with unbound nodes; nothing may follow it in its record. */
  function TakeBody(f: Fixed, s: seq<byte>): Option<Schema>
    requires FixedShape(f)
  {
    match TakeNodes(f.counts[1], s)
    case Short => None
    case Taken(nodes, s1) =>
      match TakeBytes(f.counts[2], s1)
      case Short => None
      case Taken(strings, s2) =>
        match TakeDependencies(f.counts[3], s2)
        case Short => None
        case Taken(dependencies, s3) =>
          match TakeNames(f.key.refType, f.counts, s3)
          case Short => None
          case Taken(names, rest) =>
            if rest != [] then None
            else
              Some(Schema(f.key.typeId, f.counts[0] == 1, f.key.scriptIndex, f.key.scriptHash, f.key.typeHash, nodes,
                          strings, dependencies, f.key.refType, names.className, names.nameSpace, names.assembly))
  }

  /** `typetree_bind_node_strings`: every offset must resolve. */
  function Bind(ctx: Context, strings: seq<byte>, nodes: seq<Node>): (r: Option<seq<Node>>)
    ensures r.Some? ==> |r.value| == |nodes|
  {
    if nodes == [] then Some([])
    else
      var t, n := Resolve(strings, ctx.common, nodes[0].typeOffset), Resolve(strings, ctx.common, nodes[0].nameOffset);
      match Bind(ctx, strings, nodes[1..])
      case None => None
      case Some(tail) =>
        if t.None? || n.None? then None
        else Some([nodes[0].(typeName := t.value, name := n.value)] + tail)
  }

  function DecodePayload(ctx: Context, s: seq<byte>, last: Option<Key>): Decoded {
    match TakeFixed(s)
    case Fail(status) => Bad(status)
    case Done(f, body) =>
      if CheckFixed(f, last) != Ok then Bad(CheckFixed(f, last))
      else
        match TakeBody(f, body)
        case None => Bad(InvalidFormat)
        case Some(raw) =>
          match Bind(ctx, raw.strings, raw.nodes)
          case None => Bad(InvalidFormat)
          case Some(nodes) =>
            var schema := raw.(nodes := nodes);
            if CheckSchema(ctx, f.key, schema) != Ok then Bad(CheckSchema(ctx, f.key, schema))
              else Good(Entry(f.key, schema))
  }

  function PayloadParser(ctx: Context): Parser {
    (s, last) => DecodePayload(ctx, s, last)
  }

  datatype Loading = Loaded(entries: seq<Entry>) | Refused(status: Status)

  function DecodeFile(ctx: Context, data: seq<byte>): Loading {
    match Open(ctx.digest, data)
    case Unreadable(status) => Refused(status)
    case Opened(count, records) =>
      match DecodeRecords(PayloadParser(ctx), count, records, None)
      case Fail(status) => Refused(status)
      case Done(entries, rest) => if rest != [] then Refused(InvalidFormat) else Loaded(entries)
  }
}
