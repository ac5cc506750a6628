/** The registry printer and parser are mutual inverses. */
module RegistryRoundTrip {
  import opened Bytes
  import opened RegistryWords
  import opened RegistryKeys
  import opened RegistryRecords
  import opened SchemaRegistry
  import opened RegistryFormat
  import opened TypeTreeSchema

  // ----- What is printed is parsed back -----

  function Unbound(nodes: seq<Node>): (r: seq<Node>)
    ensures |r| == |nodes|
  {
    if nodes == [] then [] else [nodes[0].(typeName := [], name := [])] + Unbound(nodes[1..])
  }

  lemma NodeWordsFit(node: Node)
    ensures Fit(NODE, NodeWords(node)) && NodeOf(NodeWords(node)) == node.(typeName := [], name := [])
  {
    PowersOf256();
    var w := NodeWords(node);
    forall i | 0 <= i < 9 ensures w[i] < Pow256(NODE[i]) {
      assert NODE[0] == 2 && NODE[1] == 1 && NODE[2] == 1 && NODE[3] == 4 && NODE[4] == 4 && NODE[5] == 4
        && NODE[6] == 4;
      assert NODE[7] == 4 && NODE[8] == 8;
    }
  }

  lemma {:induction false} NodesRead(nodes: seq<Node>, rest: seq<byte>)
    ensures TakeNodes(|nodes|, NodesText(nodes, rest)) == Taken(Unbound(nodes), rest)
  {
    if nodes != [] {
      var w, tail := NodeWords(nodes[0]), NodesText(nodes[1..], rest);
      NodeWordsFit(nodes[0]);
      WordsRead(NODE, w, tail);
      NodesRead(nodes[1..], rest);
    }
  }

  lemma WordFits(x: nat)
    requires x < 0x1_0000_0000
    ensures Fit(DEPENDENCY, [x])
  {
    PowersOf256();
  }

  lemma {:induction false} DependenciesRead(dependencies: seq<i32>, rest: seq<byte>)
    ensures TakeDependencies(|dependencies|, DependenciesText(dependencies, rest)) == Taken(dependencies, rest)
  {
    if dependencies != [] {
      var w, tail := [Unsigned32(dependencies[0])], DependenciesText(dependencies[1..], rest);
      WordFits(w[0]);
      WordsRead(DEPENDENCY, w, tail);
      DependenciesRead(dependencies[1..], rest);
      assert dependencies == [dependencies[0]] + dependencies[1..];
    }
  }

  lemma NamesRead(schema: Schema)
    requires WithinLimits(schema)
    ensures TakeNames(schema.refType, CountWords(schema),
                      NameText(schema.className) + (NameText(schema.nameSpace) + NameText(schema.assembly)))
         == Taken(Names(schema.className, schema.nameSpace, schema.assembly), [])
  {
    var c, n, a := NameText(schema.className), NameText(schema.nameSpace), NameText(schema.assembly);
    if schema.refType {
      BytesRead(c, n + a);
      BytesRead(n, a);
      assert a + [] == a;
      BytesRead(a, []);
    }
  }

  lemma BodyRead(f: Fixed, schema: Schema)
    requires WithinLimits(schema) && AgreesWithKey(f.key, schema) && f.counts == CountWords(schema)
    ensures TakeBody(f, BodyText(schema)) == Some(schema.(nodes := Unbound(schema.nodes)))
  {
    var names := NameText(schema.className) + (NameText(schema.nameSpace) + NameText(schema.assembly));
    var dependencies := DependenciesText(schema.dependencies, names);
    NodesRead(schema.nodes, schema.strings + dependencies);
    BytesRead(schema.strings, dependencies);
    DependenciesRead(schema.dependencies, names);
    NamesRead(schema);
  }

  lemma {:induction false} BindsBack(ctx: Context, strings: seq<byte>, nodes: seq<Node>)
    requires forall i {:trigger nodes[i]} :: 0 <= i < |nodes| ==> NodeIsBound(ctx, strings, nodes[i])
    ensures Bind(ctx, strings, Unbound(nodes)) == Some(nodes)
  {
    if nodes != [] {
      assert Unbound(nodes)[1..] == Unbound(nodes[1..]);
      BindsBack(ctx, strings, nodes[1..]);
      assert NodeIsBound(ctx, strings, nodes[0]);
      assert nodes == [nodes[0]] + nodes[1..];
    }
  }

  lemma NumberWordsFit(key: Key)
    ensures Fit(NUMBERS, NumberWords(key))
    ensures KeyOf(key.fileVersion, key.unity, NumberWords(key), key.scriptHash, key.typeHash) == key
  {
    PowersOf256();
    var w := NumberWords(key);
    forall i | 0 <= i < 4 ensures w[i] < Pow256(NUMBERS[i]) {
      assert NUMBERS[0] == 4 && NUMBERS[1] == 4 && NUMBERS[2] == 2 && NUMBERS[3] == 2;
    }
  }

  lemma SmallWordsFit(widths: seq<nat>, words: seq<nat>)
    requires |widths| == |words|
    requires forall i {:trigger widths[i]} :: 0 <= i < |widths| ==> widths[i] == 4
    requires forall i {:trigger words[i]} :: 0 <= i < |words| ==> words[i] < 0x1_0000_0000
    ensures Fit(widths, words)
  {
    PowersOf256();
    forall i | 0 <= i < |words| ensures words[i] < Pow256(widths[i]) {
      assert widths[i] == 4;
    }
  }

  lemma CountsRead(key: Key, schema: Schema, body: seq<byte>)
    requires WithinLimits(schema)
    ensures TakeCounts(key, PutWords(COUNTS, CountWords(schema)) + body) == Done(Fixed(key, CountWords(schema)), body)
  {
    SmallWordsFit(COUNTS, CountWords(schema));
    WordsRead(COUNTS, CountWords(schema), body);
  }

  lemma NumbersRead(key: Key, schema: Schema, body: seq<byte>)
    requires WithinLimits(schema)
    ensures TakeNumbers(key.fileVersion, key.unity, NumbersText(key, CountWords(schema), body))
         == Done(Fixed(key, CountWords(schema)), body)
  {
    var s3 := PutWords(COUNTS, CountWords(schema)) + body;
    CountsRead(key, schema, body);
    BytesRead(key.typeHash, s3);
    BytesRead(key.scriptHash, key.typeHash + s3);
    NumberWordsFit(key);
    WordsRead(NUMBERS, NumberWords(key), key.scriptHash + (key.typeHash + s3));
  }

  lemma FixedRead(key: Key, schema: Schema, body: seq<byte>)
    requires WithinLimits(schema) && CheckKey(key) == Ok
    ensures TakeFixed(FixedText(key, CountWords(schema), body)) == Done(Fixed(key, CountWords(schema)), body)
  {
    var numbers, w := NumbersText(key, CountWords(schema), body), [key.fileVersion, |key.unity|];
    NumbersRead(key, schema, body);
    BytesRead(key.unity, numbers);
    SmallWordsFit(IDENTITY, w);
    WordsRead(IDENTITY, w, key.unity + numbers);
  }

  lemma PayloadReads(ctx: Context, e: Entry, last: Option<Key>)
    requires CheckSchema(ctx, e.key, e.schema) == Ok && Follows(last, e.key)
    ensures DecodePayload(ctx, Payload(e), last) == Good(e)
  {
    var f := Fixed(e.key, CountWords(e.schema));
    FixedComesBack(ctx, f, e, last);
    BodyComesBack(ctx, f, e.schema);
    PayloadSteps(ctx, Payload(e), last, f, BodyText(e.schema), e.schema.(nodes := Unbound(e.schema.nodes)),
                 e.schema.nodes);
  }

  /** The fixed part of an admissible entry above the last key is read and passes its checks. */
  lemma FixedComesBack(ctx: Context, f: Fixed, e: Entry, last: Option<Key>)
    requires CheckSchema(ctx, e.key, e.schema) == Ok && Follows(last, e.key)
    requires f == Fixed(e.key, CountWords(e.schema))
    ensures FixedShape(f) && TakeFixed(Payload(e)) == Done(f, BodyText(e.schema)) && CheckFixed(f, last) == Ok
  {
    FixedRead(e.key, e.schema, BodyText(e.schema));
    FixedPasses(e.key, e.schema, last);
  }

  /** The body of an admissible schema is read, and its nodes get their names back. */
  lemma BodyComesBack(ctx: Context, f: Fixed, schema: Schema)
    requires CheckSchema(ctx, f.key, schema) == Ok && f.counts == CountWords(schema)
    ensures var raw := schema.(nodes := Unbound(schema.nodes));
            TakeBody(f, BodyText(schema)) == Some(raw) && Bind(ctx, raw.strings, raw.nodes) == Some(schema.nodes)
  {
    BodyRead(f, schema);
    BindsBack(ctx, schema.strings, schema.nodes);
  }

  lemma FixedPasses(key: Key, schema: Schema, last: Option<Key>)
    requires WithinLimits(schema) && CheckKey(key) == Ok && Follows(last, key)
    ensures CheckFixed(Fixed(key, CountWords(schema)), last) == Ok
  {
  }

  lemma PayloadSteps(ctx: Context, s: seq<byte>, last: Option<Key>, f: Fixed, body: seq<byte>, raw: Schema,
                     nodes: seq<Node>)
    requires FixedShape(f) && TakeFixed(s) == Done(f, body) && CheckFixed(f, last) == Ok
      && TakeBody(f, body) == Some(raw)
    requires Bind(ctx, raw.strings, raw.nodes) == Some(nodes) && CheckSchema(ctx, f.key, raw.(nodes := nodes)) == Ok
    ensures DecodePayload(ctx, s, last) == Good(Entry(f.key, raw.(nodes := nodes)))
  {
  }

  function Admission(ctx: Context): Admission {
    (e: Entry) => CheckSchema(ctx, e.key, e.schema) == Ok
  }

  lemma PayloadsRead(ctx: Context)
    ensures Reads(Payload, PayloadParser(ctx), Admission(ctx))
  {
    forall e, last | Admission(ctx)(e) && Follows(last, e.key) ensures PayloadParser(ctx)(Payload(e), last) == Good(e) {
      PayloadReads(ctx, e, last);
    }
  }

  /** Loading what was saved rebuilds the same registry, entry for entry. */
  lemma LoadInvertsSave(ctx: Context, entries: seq<Entry>)
    requires ValidEntries(ctx, entries) && |FileText(ctx, entries)| <= MAX_FILE
    ensures DecodeFile(ctx, FileText(ctx, entries)) == Loaded(entries)
  {
    SealOpens(ctx.digest, |entries|, RecordsText(Payload, entries));
    SealGrows(ctx.digest, |entries|, RecordsText(Payload, entries));
    SortedIsAscending(Admission(ctx), entries, None);
    PayloadsRead(ctx);
    RecordsRead(Payload, PayloadParser(ctx), Admission(ctx), entries, None);
  }

  lemma SealGrows(digest: seq<byte> -> Digest, count: nat, records: seq<byte>)
    ensures |Seal(digest, count, records)| >= |records|
  {
  }

  // ----- What is parsed prints back -----

  lemma {:induction false} NodesPrintBack(count: nat, s: seq<byte>)
    requires TakeNodes(count, s).Taken?
    ensures NodesText(TakeNodes(count, s).value, TakeNodes(count, s).rest) == s
  {
    if count > 0 {
      var w, s1 := TakeWords(NODE, s).value, TakeWords(NODE, s).rest;
      WordsPrintBack(NODE, s);
      NodesPrintBack(count - 1, s1);
      NodePrintsBack(w);
      var nodes := TakeNodes(count, s).value;
      assert nodes[1..] == TakeNodes(count - 1, s1).value;
    }
  }

  lemma NodePrintsBack(w: seq<nat>)
    requires Fit(NODE, w)
    ensures NodeWords(NodeOf(w)) == w
  {
    NodeFits(w);
  }

  lemma {:induction false} DependenciesPrintBack(count: nat, s: seq<byte>)
    requires TakeDependencies(count, s).Taken?
    ensures DependenciesText(TakeDependencies(count, s).value, TakeDependencies(count, s).rest) == s
  {
    if count > 0 {
      var w, s1 := TakeWords(DEPENDENCY, s).value, TakeWords(DEPENDENCY, s).rest;
      WordsPrintBack(DEPENDENCY, s);
      FourByteWords(DEPENDENCY, w);
      DependenciesPrintBack(count - 1, s1);
      assert w == [Unsigned32(Signed32(w[0]))];
      var dependencies := TakeDependencies(count, s).value;
      assert dependencies[1..] == TakeDependencies(count - 1, s1).value;
    }
  }

  lemma NamesPrintBack(refType: bool, counts: seq<nat>, s: seq<byte>)
    requires |counts| == 7 && TakeNames(refType, counts, s).Taken? && TakeNames(refType, counts, s).rest == []
    ensures var n := TakeNames(refType, counts, s).value;
            && NameText(n.className) + (NameText(n.nameSpace) + NameText(n.assembly)) == s
            && counts[4..] == [|NameText(n.className)|, |NameText(n.nameSpace)|, |NameText(n.assembly)|]
  {
    if refType {
      var c := TakeBytes(counts[4], s);
      BytesPrintBack(counts[4], s);
      var n := TakeBytes(counts[5], c.rest);
      BytesPrintBack(counts[5], c.rest);
      BytesPrintBack(counts[6], n.rest);
      var a := TakeBytes(counts[6], n.rest);
      assert a.value + [] == a.value;
    }
  }

  lemma BodyPrintsBack(f: Fixed, s: seq<byte>)
    requires FixedShape(f) && f.counts[0] < 2 && TakeBody(f, s).Some?
    ensures BodyText(TakeBody(f, s).value) == s && CountWords(TakeBody(f, s).value) == f.counts
  {
    var nodes := TakeNodes(f.counts[1], s);
    NodesPrintBack(f.counts[1], s);
    var strings := TakeBytes(f.counts[2], nodes.rest);
    BytesPrintBack(f.counts[2], nodes.rest);
    var dependencies := TakeDependencies(f.counts[3], strings.rest);
    DependenciesPrintBack(f.counts[3], strings.rest);
    NamesPrintBack(f.key.refType, f.counts, dependencies.rest);
    var words := CountWords(TakeBody(f, s).value);
    assert f.counts[4..][0] == words[4] && f.counts[4..][1] == words[5] && f.counts[4..][2] == words[6];
    assert words == f.counts;
  }

  lemma {:induction false} BindingKeepsText(ctx: Context, strings: seq<byte>, nodes: seq<Node>, rest: seq<byte>)
    requires Bind(ctx, strings, nodes).Some?
    ensures NodesText(Bind(ctx, strings, nodes).value, rest) == NodesText(nodes, rest)
  {
    if nodes != [] {
      BindingKeepsText(ctx, strings, nodes[1..], rest);
      var bound := Bind(ctx, strings, nodes).value;
      assert bound[1..] == Bind(ctx, strings, nodes[1..]).value;
      assert NodeWords(bound[0]) == NodeWords(nodes[0]);
    }
  }

  lemma CountsPrintBack(key: Key, s: seq<byte>)
    requires TakeCounts(key, s).Done?
    ensures var r := TakeCounts(key, s);
            s == PutWords(COUNTS, r.value.counts) + r.rest && r.value.key == key && r.value.counts[0] < 2
  {
    WordsPrintBack(COUNTS, s);
  }

  lemma KeyPrintsBack(fileVersion: u32, unity: seq<byte>, w: seq<nat>, scriptHash: Hash, typeHash: Hash)
    requires |w| == 4 && w[0] < 0x1_0000_0000 && w[1] < 0x1_0000_0000 && w[2] < 0x1_0000 && w[3] < 8
    ensures NumberWords(KeyOf(fileVersion, unity, w, scriptHash, typeHash)) == w
  {
    assert w[3] == w[3] % 2 + 2 * (w[3] / 2 % 2) + 4 * (w[3] / 4 % 2);
  }

  lemma NumbersPrintBack(fileVersion: u32, unity: seq<byte>, s: seq<byte>)
    requires TakeNumbers(fileVersion, unity, s).Done?
    ensures var r := TakeNumbers(fileVersion, unity, s);
            && s == NumbersText(r.value.key, r.value.counts, r.rest) && r.value.counts[0] < 2
            && r.value.key.fileVersion == fileVersion && r.value.key.unity == unity
  {
    var n := TakeWords(NUMBERS, s);
    WordsPrintBack(NUMBERS, s);
    NumbersFit(s);
    var scriptHash := TakeBytes(HASH_SIZE, n.rest);
    BytesPrintBack(HASH_SIZE, n.rest);
    var typeHash := TakeBytes(HASH_SIZE, scriptHash.rest);
    BytesPrintBack(HASH_SIZE, scriptHash.rest);
    CountsPrintBack(KeyOf(fileVersion, unity, n.value, scriptHash.value, typeHash.value), typeHash.rest);
    KeyPrintsBack(fileVersion, unity, n.value, scriptHash.value, typeHash.value);
  }

  lemma FixedPrintsBack(s: seq<byte>)
    requires TakeFixed(s).Done?
    ensures var r := TakeFixed(s); s == FixedText(r.value.key, r.value.counts, r.rest) && r.value.counts[0] < 2
  {
    var w := TakeWords(IDENTITY, s);
    WordsPrintBack(IDENTITY, s);
    FourByteWords(IDENTITY, w.value);
    var unity := TakeBytes(w.value[1], w.rest);
    BytesPrintBack(w.value[1], w.rest);
    NumbersPrintBack(w.value[0], unity.value, unity.rest);
    assert w.value == [w.value[0], |unity.value|];
  }

  lemma PayloadPrintsBack(ctx: Context, s: seq<byte>, last: Option<Key>)
    requires DecodePayload(ctx, s, last).Good?
    ensures var e := DecodePayload(ctx, s, last).entry;
            Payload(e) == s && CheckSchema(ctx, e.key, e.schema) == Ok && Follows(last, e.key)
  {
    var f, body := TakeFixed(s).value, TakeFixed(s).rest;
    FixedPrintsBack(s);
    BodyPrintsBack(f, body);
    var raw := TakeBody(f, body).value;
    var schema := raw.(nodes := Bind(ctx, raw.strings, raw.nodes).value);
    var names := NameText(raw.className) + (NameText(raw.nameSpace) + NameText(raw.assembly));
    BindingKeepsText(ctx, raw.strings, raw.nodes, raw.strings + DependenciesText(raw.dependencies, names));
    assert CountWords(schema) == CountWords(raw);
  }

  lemma PayloadsPrintBack(ctx: Context)
    ensures PrintsBack(Payload, PayloadParser(ctx), Admission(ctx))
  {
    forall s, last | PayloadParser(ctx)(s, last).Good?
      ensures var e := PayloadParser(ctx)(s, last).entry; Payload(e) == s && Admission(ctx)(e) && Follows(last, e.key)
    {
      PayloadPrintsBack(ctx, s, last);
    }
  }

  /** Saving what was loaded reproduces the file byte for byte, and only valid registries are loaded. */
  lemma SaveInvertsLoad(ctx: Context, data: seq<byte>)
    requires DecodeFile(ctx, data).Loaded?
    ensures ValidEntries(ctx, DecodeFile(ctx, data).entries)
    ensures FileText(ctx, DecodeFile(ctx, data).entries) == data
  {
    var entries, envelope := DecodeFile(ctx, data).entries, Open(ctx.digest, data);
    OpenedWasSealed(ctx.digest, data);
    PayloadsPrintBack(ctx);
    RecordsPrintBack(Payload, PayloadParser(ctx), Admission(ctx), envelope.count, envelope.records, None);
    AscendingIsSorted(Admission(ctx), entries, None);
    forall i | 0 <= i < |entries| ensures CheckSchema(ctx, entries[i].key, entries[i].schema) == Ok {
      assert entries[i] in entries && Admission(ctx)(entries[i]);
    }
    assert RecordsText(Payload, entries) + [] == RecordsText(Payload, entries);
  }

  /** Saving is a bijection between valid registries and loadable files. */
  lemma SavingIsInjective(ctx: Context, a: seq<Entry>, b: seq<Entry>)
    requires ValidEntries(ctx, a) && ValidEntries(ctx, b)
    requires |FileText(ctx, a)| <= MAX_FILE && FileText(ctx, a) == FileText(ctx, b)
    ensures a == b
  {
    LoadInvertsSave(ctx, a);
    LoadInvertsSave(ctx, b);
  }
}
