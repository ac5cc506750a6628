/** The registry file byte by byte, as the header comment of src/io/typetree_schema_registry.c describes it, against
    the printer: every integer is little-endian, every string has its length in front of it. */
module RegistryLayout {
  import opened Bytes
  import opened RegistryWords
  import opened RegistryKeys
  import opened SchemaRegistry
  import opened RegistryRecords
  import opened RegistryFormat

  /** The unsigned image of a signed 32-bit number. */
  function Image32(x: i32): nat {
    (x + 0x1_0000_0000) % 0x1_0000_0000
  }

  function NodeSpelled(node: Node): seq<byte> {
    ToLittleEndian(node.version, 2) + (ToLittleEndian(node.level, 1) + ([node.typeFlags]
    + (ToLittleEndian(node.typeOffset, 4) + (ToLittleEndian(node.nameOffset, 4)
    + (ToLittleEndian(Image32(node.byteSize), 4) + (ToLittleEndian(node.index, 4)
    + (ToLittleEndian(node.metaFlags, 4) + ToLittleEndian(node.refTypeHash, 8))))))))
  }

  function NodesSpelled(nodes: seq<Node>): seq<byte> {
    if nodes == [] then [] else NodeSpelled(nodes[0]) + NodesSpelled(nodes[1..])
  }

  function DependenciesSpelled(dependencies: seq<i32>): seq<byte> {
    if dependencies == [] then []
    else ToLittleEndian(Image32(dependencies[0]), 4) + DependenciesSpelled(dependencies[1..])
  }

  /** The text of a name that may be absent. */
  function TextOf(name: Option<CString>): seq<byte> {
    match name case None => [] case Some(text) => text
  }

  function Bit(set_: bool, value: nat): nat {
    if set_ then value else 0
  }

  /** The key of a record, in front of the rest. */
  function KeySpelled(key: Key, rest: seq<byte>): seq<byte> {
    ToLittleEndian(key.fileVersion, 4) + (ToLittleEndian(|key.unity|, 4) + (key.unity + NumbersSpelled(key, rest)))
  }

  function NumbersSpelled(key: Key, rest: seq<byte>): seq<byte> {
    ToLittleEndian(Image32(key.classId), 4) + (ToLittleEndian(Image32(key.typeId), 4)
    + (ToLittleEndian(key.scriptIndex, 2)
    + (ToLittleEndian(Bit(key.hasScriptHash, 1) + Bit(key.refType, 2) + Bit(key.stripped, 4), 2)
    + (key.scriptHash + (key.typeHash + rest)))))
  }

  /** The flag and the six counts of a record, in front of the rest. */
  function CountsSpelled(schema: Schema, rest: seq<byte>): seq<byte> {
    ToLittleEndian(Bit(schema.stripped, 1), 4) + (ToLittleEndian(|schema.nodes|, 4)
    + (ToLittleEndian(|schema.strings|, 4) + (ToLittleEndian(|schema.dependencies|, 4)
    + (ToLittleEndian(|TextOf(schema.className)|, 4) + (ToLittleEndian(|TextOf(schema.nameSpace)|, 4)
    + (ToLittleEndian(|TextOf(schema.assembly)|, 4) + rest))))))
  }

  /** What the counts count. */
  function BodySpelled(schema: Schema): seq<byte> {
    NodesSpelled(schema.nodes) + (schema.strings + (DependenciesSpelled(schema.dependencies)
    + (TextOf(schema.className) + (TextOf(schema.nameSpace) + TextOf(schema.assembly)))))
  }

  function RecordSpelled(e: Entry): seq<byte> {
    KeySpelled(e.key, CountsSpelled(e.schema, BodySpelled(e.schema)))
  }

  /** The records, each behind its own size with the eight bytes of that size. */
  function RecordsSpelled(entries: seq<Entry>): seq<byte> {
    if entries == [] then []
    else SizedSpelled(RecordSpelled(entries[0]), RecordsSpelled(entries[1..]))
  }

  function SizedSpelled(record: seq<byte>, rest: seq<byte>): seq<byte> {
    ToLittleEndian(8 + |record|, 8) + (record + rest)
  }

  /** The magic "DXTTSR01", version 1, header size 64, no flags, the number of entries, a reserved word and the size
      of the file, in front of the rest. */
  function HeaderSpelled(count: nat, size: nat, rest: seq<byte>): seq<byte> {
    [68, 88, 84, 84, 83, 82, 48, 49] + (ToLittleEndian(1, 2) + (ToLittleEndian(64, 2) + (ToLittleEndian(0, 4)
    + (ToLittleEndian(count, 4) + (ToLittleEndian(0, 4) + (ToLittleEndian(size, 8) + rest))))))
  }

  /** The header, the digest of the records, and the records. */
  function FileSpelled(digest: seq<byte> -> Digest, entries: seq<Entry>): seq<byte> {
    var records := RecordsSpelled(entries);
    HeaderSpelled(|entries|, 64 + |records|, digest(records) + records)
  }

  // ----- The printer spells this -----

  /** Any number of words in front of a rest. */
  lemma PutFirst(widths: seq<nat>, words: seq<nat>, rest: seq<byte>)
    requires |widths| == |words| > 0
    ensures PutWords(widths, words) + rest ==
      ToLittleEndian(words[0], widths[0]) + (PutWords(widths[1..], words[1..]) + rest)
  {
    Assoc(ToLittleEndian(words[0], widths[0]), PutWords(widths[1..], words[1..]), rest);
  }

  lemma PutOne(n: nat, x: nat, rest: seq<byte>)
    ensures PutWords([n], [x]) + rest == ToLittleEndian(x, n) + rest
  {
    assert [n][1..] == [] && [x][1..] == [];
    PutFirst([n], [x], rest);
    assert [] + rest == rest;
  }

  lemma PutTwo(n: nat, m: nat, x: nat, y: nat, rest: seq<byte>)
    ensures PutWords([n, m], [x, y]) + rest == ToLittleEndian(x, n) + (ToLittleEndian(y, m) + rest)
  {
    assert [n, m][1..] == [m] && [x, y][1..] == [y];
    PutFirst([n, m], [x, y], rest);
    PutOne(m, y, rest);
  }

  lemma PutFour(n: seq<nat>, x: seq<nat>, rest: seq<byte>)
    requires |n| == |x| == 4
    ensures PutWords(n, x) + rest ==
      ToLittleEndian(x[0], n[0]) + (ToLittleEndian(x[1], n[1]) + (ToLittleEndian(x[2], n[2])
      + (ToLittleEndian(x[3], n[3]) + rest)))
  {
    PutFirst(n, x, rest);
    PutFirst(n[1..], x[1..], rest);
    assert n[1..][1..] == [n[2], n[3]] && x[1..][1..] == [x[2], x[3]];
    PutTwo(n[2], n[3], x[2], x[3], rest);
  }

  lemma PutMore(n: seq<nat>, x: seq<nat>, rest: seq<byte>)
    requires |n| == |x| > 4
    ensures PutWords(n, x) + rest ==
      ToLittleEndian(x[0], n[0]) + (ToLittleEndian(x[1], n[1]) + (ToLittleEndian(x[2], n[2])
      + (ToLittleEndian(x[3], n[3]) + (PutWords(n[4..], x[4..]) + rest))))
  {
    PutFirst(n, x, rest);
    PutFirst(n[1..], x[1..], rest);
    assert n[1..][1..] == n[2..] && x[1..][1..] == x[2..];
    PutFirst(n[2..], x[2..], rest);
    assert n[2..][1..] == n[3..] && x[2..][1..] == x[3..];
    PutFirst(n[3..], x[3..], rest);
    assert n[3..][1..] == n[4..] && x[3..][1..] == x[4..];
  }

  lemma ImagesAgree(x: i32)
    ensures Unsigned32(x) == Image32(x)
  {
  }

  lemma NodeIsSpelled(node: Node)
    ensures PutWords(NODE, NodeWords(node)) == NodeSpelled(node)
  {
    var w := NodeWords(node);
    PutMore(NODE, w, []);
    PutMore(NODE[4..], w[4..], []);
    PutOne(8, w[8], []);
    assert NODE[4..][4..] == [8] && w[4..][4..] == [w[8]];
    assert PutWords(NODE, w) + [] == PutWords(NODE, w) && ToLittleEndian(w[8], 8) + [] == ToLittleEndian(w[8], 8);
    assert ToLittleEndian(node.typeFlags as nat, 1) == [node.typeFlags];
    ImagesAgree(node.byteSize);
  }

  lemma {:induction false} NodesAreSpelled(nodes: seq<Node>, rest: seq<byte>)
    ensures NodesText(nodes, rest) == NodesSpelled(nodes) + rest
  {
    if nodes == [] {
      assert [] + rest == rest;
    } else {
      NodeIsSpelled(nodes[0]);
      NodesAreSpelled(nodes[1..], rest);
      Assoc(NodeSpelled(nodes[0]), NodesSpelled(nodes[1..]), rest);
    }
  }

  lemma {:induction false} DependenciesAreSpelled(dependencies: seq<i32>, rest: seq<byte>)
    ensures DependenciesText(dependencies, rest) == DependenciesSpelled(dependencies) + rest
  {
    if dependencies == [] {
      assert [] + rest == rest;
    } else {
      var x := Unsigned32(dependencies[0]);
      var tail := DependenciesText(dependencies[1..], rest);
      PutOne(4, x, tail);
      ImagesAgree(dependencies[0]);
      DependenciesAreSpelled(dependencies[1..], rest);
      Assoc(ToLittleEndian(x, 4), DependenciesSpelled(dependencies[1..]), rest);
    }
  }

  lemma BodyIsSpelled(schema: Schema)
    ensures BodyText(schema) == BodySpelled(schema)
  {
    var names := NameText(schema.className) + (NameText(schema.nameSpace) + NameText(schema.assembly));
    NodesAreSpelled(schema.nodes, schema.strings + DependenciesText(schema.dependencies, names));
    DependenciesAreSpelled(schema.dependencies, names);
  }

  lemma CountsAreSpelled(schema: Schema, rest: seq<byte>)
    ensures PutWords(COUNTS, CountWords(schema)) + rest == CountsSpelled(schema, rest)
  {
    var w := CountWords(schema);
    PutMore(COUNTS, w, rest);
    PutFirst(COUNTS[4..], w[4..], rest);
    assert COUNTS[4..][1..] == [4, 4] && w[4..][1..] == [w[5], w[6]];
    PutTwo(4, 4, w[5], w[6], rest);
  }

  lemma NumbersAreSpelled(key: Key, rest: seq<byte>)
    ensures PutWords(NUMBERS, NumberWords(key)) + (key.scriptHash + (key.typeHash + rest)) == NumbersSpelled(key, rest)
  {
    PutFour(NUMBERS, NumberWords(key), key.scriptHash + (key.typeHash + rest));
    ImagesAgree(key.classId);
    ImagesAgree(key.typeId);
  }

  lemma KeyIsSpelled(key: Key, counts: seq<nat>, body: seq<byte>)
    requires |counts| == 7
    ensures FixedText(key, counts, body) == KeySpelled(key, PutWords(COUNTS, counts) + body)
  {
    NumbersAreSpelled(key, PutWords(COUNTS, counts) + body);
    PutTwo(4, 4, key.fileVersion, |key.unity|, key.unity + NumbersText(key, counts, body));
  }

  /** The payload the writer prints for an entry is its record. */
  lemma PayloadIsSpelled(e: Entry)
    ensures Payload(e) == RecordSpelled(e)
  {
    BodyIsSpelled(e.schema);
    CountsAreSpelled(e.schema, BodyText(e.schema));
    KeyIsSpelled(e.key, CountWords(e.schema), BodyText(e.schema));
  }

  lemma FrameIsSpelled(payload: seq<byte>, rest: seq<byte>)
    ensures Frame(payload) + rest == SizedSpelled(payload, rest)
  {
    PutOne(8, 8 + |payload|, payload);
    Assoc(ToLittleEndian(8 + |payload|, 8), payload, rest);
  }

  lemma {:induction false} RecordsAreSpelled(entries: seq<Entry>)
    ensures RecordsText(Payload, entries) == RecordsSpelled(entries)
  {
    if entries != [] {
      PayloadIsSpelled(entries[0]);
      RecordsAreSpelled(entries[1..]);
      FrameIsSpelled(Payload(entries[0]), RecordsSpelled(entries[1..]));
    }
  }

  lemma HeaderIsSpelled(count: nat, size: nat, rest: seq<byte>)
    ensures Magic() + (PutWords(HEADER, HeaderWords(count, size)) + rest) == HeaderSpelled(count, size, rest)
  {
    var w := HeaderWords(count, size);
    PutMore(HEADER, w, rest);
    assert HEADER[4..] == [4, 8] && w[4..] == [w[4], w[5]];
    PutTwo(4, 8, w[4], w[5], rest);
    MagicIsSpelled();
  }

  lemma MagicIsSpelled()
    ensures Magic() == [68, 88, 84, 84, 83, 82, 48, 49]
  {
  }

  lemma SealIsSpelled(digest: seq<byte> -> Digest, count: nat, records: seq<byte>)
    ensures Seal(digest, count, records) == HeaderSpelled(count, 64 + |records|, digest(records) + records)
  {
    HeaderIsSpelled(count, 64 + |records|, digest(records) + records);
  }

  /** The file the writer prints is the file the format describes. */
  lemma FileIsSpelled(ctx: Context, entries: seq<Entry>)
    ensures FileText(ctx, entries) == FileSpelled(ctx.digest, entries)
  {
    RecordsAreSpelled(entries);
    SealIsSpelled(ctx.digest, |entries|, RecordsSpelled(entries));
  }
}
