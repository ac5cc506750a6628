/** Serialise and deserialise-replace (src/io/typetree_schema_registry.c). */
module RegistryLoad {
  import opened Bytes
  import opened RegistryWords
  import opened RegistryKeys
  import opened SchemaRegistry
  import opened RegistryStore
  import opened RegistryRecords
  import opened RegistryFormat
  import opened RegistryFile
  import opened Pairs
  import opened RegistryAdmission
  import RegistryLayout
  import RegistryRoundTrip
  import SchemaNames

  // ----- Serialise -----

  lemma TextFrom(entries: seq<Entry>, i: nat, s: seq<byte>)
    requires i < |entries|
    ensures s + RecordsText(Payload, entries[i..]) ==
      s + Frame(Payload(entries[i])) + RecordsText(Payload, entries[i + 1..])
  {
    assert entries[i..][1..] == entries[i + 1..];
    Assoc(s, Frame(Payload(entries[i])), RecordsText(Payload, entries[i + 1..]));
  }

  lemma NoMoreText(entries: seq<Entry>, s: seq<byte>)
    ensures entries[0..] == entries && RecordsText(Payload, entries[|entries|..]) == [] && s + [] == s
  {
  }

  lemma SealSize(digest: seq<byte> -> Digest, count: nat, records: seq<byte>)
    ensures |Seal(digest, count, records)| == HEADER_SIZE + |records|
  {
    PutSize(HEADER, HeaderWords(count, HEADER_SIZE + |records|));
    SizeOfHeader();
  }

  lemma HeaderFilled(zeros: seq<byte>, records: seq<byte>)
    requires |zeros| == HEADER_SIZE
    ensures (zeros + records)[HEADER_SIZE..] == records && |zeros + records| == HEADER_SIZE + |records|
  {
  }

  /** The checks before writing: every entry again, then every neighbouring pair of keys in order. */
  method CheckEntries(ctx: Context, entries: seq<Entry>, ordered: seq<Entry>) returns (status: Status)
    requires multiset(ordered) == multiset(entries) && InKeyOrder(ordered)
    ensures status == Admissible(ctx, entries)
  {
    for i := 0 to |entries|
      invariant FirstRefusal(ctx, entries) == FirstRefusal(ctx, entries[i..])
    {
      status := CheckSchema(ctx, entries[i].key, entries[i].schema);
      assert entries[i..][1..] == entries[i + 1..];
      if status != Ok {
        return;
      }
    }
    status := DistinctNeighbours(ordered);
    SortingKeepsTheEntries(entries, ordered);
    OrderedIsSorted(ordered);
  }

  /** Neighbours decide whether ordered entries are strictly ordered. */
  method DistinctNeighbours(ordered: seq<Entry>) returns (status: Status)
    requires InKeyOrder(ordered)
    ensures status == if Sorted(ordered) then Ok else KeyConflict
  {
    var i := 1;
    while i < |ordered|
      invariant 1 <= i && Sorted(ordered[..if i <= |ordered| then i else |ordered|])
    {
      assert CompareKeys(ordered[i - 1].key, ordered[i].key) <= 0;
      if CompareKeys(ordered[i - 1].key, ordered[i].key) == 0 {
        assert !Before(ordered[i - 1], ordered[i]);
        return KeyConflict;
      }
      SortedAppends(ordered, i);
      i := i + 1;
    }
    assert ordered[..|ordered|] == ordered;
    status := Ok;
  }

  lemma SortedAppends(ordered: seq<Entry>, i: nat)
    requires 0 < i < |ordered| && Sorted(ordered[..i]) && Before(ordered[i - 1], ordered[i])
    ensures Sorted(ordered[..i + 1])
  {
    forall k, l | 0 <= k < l < i + 1 ensures Before(ordered[k], ordered[l]) {
      if l < i {
        assert Before(ordered[..i][k], ordered[..i][l]);
      } else if k < i - 1 {
        assert Before(ordered[..i][k], ordered[..i][i - 1]);
        KeysTransitive(ordered[k].key, ordered[i - 1].key, ordered[i].key);
      }
    }
  }

  /** The first entry the validator refuses decides the status. */
  function FirstRefusal(ctx: Context, entries: seq<Entry>): Status {
    if entries == [] then Ok
    else if CheckSchema(ctx, entries[0].key, entries[0].schema) != Ok
    then CheckSchema(ctx, entries[0].key, entries[0].schema)
    else FirstRefusal(ctx, entries[1..])
  }

  lemma {:induction false} RefusesNone(ctx: Context, entries: seq<Entry>)
    ensures FirstRefusal(ctx, entries) == Ok <==> AllAdmitted(ctx, entries)
  {
    if entries != [] {
      RefusesNone(ctx, entries[1..]);
      assert forall i :: 0 < i < |entries| ==> entries[i] == entries[1..][i - 1];
      assert AllAdmitted(ctx, entries) ==> forall i :: 0 <= i < |entries[1..]| ==> entries[1..][i] == entries[i + 1];
    }
  }

  ghost function Admissible(ctx: Context, entries: seq<Entry>): Status {
    if FirstRefusal(ctx, entries) != Ok then FirstRefusal(ctx, entries)
    else if !Pairwise(entries, DifferentKeys) then KeyConflict
    else Ok
  }

  method WriteRecords(entries: seq<Entry>, writer: SchemaWriter) returns (ok: bool)
    requires writer.Valid() && writer.status == Ok
    modifies writer
    ensures writer.Valid() && writer.status == if ok then Ok else LimitExceeded
    ensures ok == (|old(writer.data)| + |RecordsText(Payload, entries)| <= MAX_FILE)
    ensures ok ==> writer.data == old(writer.data) + RecordsText(Payload, entries)
  {
    ghost var goal := writer.data + RecordsText(Payload, entries);
    NoMoreText(entries, goal);
    for i := 0 to |entries|
      invariant writer.Valid() && writer.status == Ok && goal == writer.data + RecordsText(Payload, entries[i..])
    {
      TextFrom(entries, i, writer.data);
      ok := writer.WriteRecord(entries[i]);
      if !ok {
        return;
      }
    }
    NoMoreText(entries, writer.data);
    ok := true;
  }

  /** The status of serialising, given the order the sort leaves the entries in. */
  ghost function SerializeStatus(ctx: Context, entries: seq<Entry>, capacity: nat, ordered: seq<Entry>): Status {
    if |entries| > MAX_ENTRIES || |entries| > capacity then InvalidArgument
    else if Admissible(ctx, entries) != Ok then Admissible(ctx, entries)
    else if |FileText(ctx, ordered)| > MAX_FILE then LimitExceeded
    else Ok
  }

  /** A registry with a file of at most 512 MiB. */
  ghost predicate Saveable(ctx: Context, entries: seq<Entry>) {
    var saveable := RegistryFits(ctx, entries) && |RegistryLayout.FileSpelled(ctx.digest, entries)| <= 536870912;
    saveable
  }

  lemma SavesExactly(ctx: Context, entries: seq<Entry>, capacity: nat, ordered: seq<Entry>)
    requires multiset(ordered) == multiset(entries) && InKeyOrder(ordered)
    ensures SerializeStatus(ctx, entries, capacity, ordered) == Ok
            <==> |entries| <= capacity && Saveable(ctx, ordered)
  {
    RegistryLayout.FileIsSpelled(ctx, ordered);
    RegistryFitsExactly(ctx, ordered);
    AdmissibleWhenValid(ctx, entries, ordered);
  }

  lemma AdmissibleWhenValid(ctx: Context, entries: seq<Entry>, ordered: seq<Entry>)
    requires multiset(ordered) == multiset(entries) && InKeyOrder(ordered)
    ensures |entries| <= MAX_ENTRIES && Admissible(ctx, entries) == Ok <==> ValidEntries(ctx, ordered)
  {
    RefusesNone(ctx, entries);
    SortingKeepsTheEntries(entries, ordered);
    OrderedIsSorted(ordered);
  }

  /** A file that is the file of some registry. */
  ghost predicate Readable(ctx: Context, data: seq<byte>) {
    exists entries {:trigger RegistryFits(ctx, entries)} ::
      Saveable(ctx, entries) && RegistryLayout.FileSpelled(ctx.digest, entries) == data
  }

  /** A file decodes to the registry whose file it is, and to nothing if there is none. */
  lemma DecodesExactly(ctx: Context, data: seq<byte>, entries: seq<Entry>)
    ensures DecodeFile(ctx, data) == Loaded(entries)
            <==> Saveable(ctx, entries) && RegistryLayout.FileSpelled(ctx.digest, entries) == data
  {
    RegistryLayout.FileIsSpelled(ctx, entries);
    RegistryFitsExactly(ctx, entries);
    if DecodeFile(ctx, data) == Loaded(entries) {
      RegistryRoundTrip.SaveInvertsLoad(ctx, data);
    }
    if Saveable(ctx, entries) {
      RegistryRoundTrip.LoadInvertsSave(ctx, entries);
    }
  }

  lemma ReadableDecodes(ctx: Context, data: seq<byte>)
    ensures DecodeFile(ctx, data).Loaded? <==> Readable(ctx, data)
    ensures DecodeFile(ctx, data).Loaded? ==> Saveable(ctx, DecodeFile(ctx, data).entries)
  {
    if DecodeFile(ctx, data).Loaded? {
      DecodesExactly(ctx, data, DecodeFile(ctx, data).entries);
      assert RegistryFits(ctx, DecodeFile(ctx, data).entries);
    }
    if entries :| RegistryFits(ctx, entries) && Saveable(ctx, entries)
                  && RegistryLayout.FileSpelled(ctx.digest, entries) == data
    {
      DecodesExactly(ctx, data, entries);
    }
  }

  /** `typetree_schema_registry_serialize`, of any registry at all: when it succeeds, the file loads
      back as the same entries in key order. */
  method Serialize(ctx: Context, registry: Registry, sort: seq<Entry> -> seq<Entry>)
    returns (status: Status, file: seq<byte>)
    requires Sorts(sort)
    ensures status == SerializeStatus(ctx, registry.entries, registry.capacity, sort(registry.entries))
    ensures status == Ok ==> file == FileText(ctx, sort(registry.entries))
    ensures status == Ok ==> DecodeFile(ctx, file) == Loaded(sort(registry.entries))
    ensures status == Ok ==> file == RegistryLayout.FileSpelled(ctx.digest, sort(registry.entries))
    ensures status == Ok ==> KeysAscend(sort(registry.entries))
    ensures status == Ok <==> |registry.entries| <= registry.capacity && Saveable(ctx, sort(registry.entries))
  {
    SavesExactly(ctx, registry.entries, registry.capacity, sort(registry.entries));
    file := [];
    if |registry.entries| > MAX_ENTRIES || |registry.entries| > registry.capacity {
      return InvalidArgument, file;
    }
    var ordered := sort(registry.entries);
    status := CheckEntries(ctx, registry.entries, ordered);
    if status != Ok {
      return;
    }
    SortedEntriesAreValid(ctx, registry.entries, ordered);
    SortedKeysAscend(ordered);
    status, file := WriteFile(ctx, ordered);
    if status == Ok {
      RegistryLayout.FileIsSpelled(ctx, ordered);
      RegistryRoundTrip.LoadInvertsSave(ctx, ordered);
    }
  }

  lemma SortedEntriesAreValid(ctx: Context, entries: seq<Entry>, ordered: seq<Entry>)
    requires |entries| <= MAX_ENTRIES && multiset(ordered) == multiset(entries) && InKeyOrder(ordered)
    requires Admissible(ctx, entries) == Ok
    ensures ValidEntries(ctx, ordered)
  {
    RefusesNone(ctx, entries);
    SortingKeepsTheEntries(entries, ordered);
    OrderedIsSorted(ordered);
  }

  /** A valid registry is refused for the size of its file only. */
  lemma ValidRegistriesSerialize(ctx: Context, entries: seq<Entry>, capacity: nat, ordered: seq<Entry>)
    requires ValidEntries(ctx, entries) && |entries| <= capacity && multiset(ordered) == multiset(entries)
      && InKeyOrder(ordered)
    ensures ordered == entries
    ensures SerializeStatus(ctx, entries, capacity, ordered) == if |FileText(ctx, entries)| <= MAX_FILE then Ok
      else LimitExceeded
  {
    SortingIsIdentity(entries, ordered);
    RefusesNone(ctx, entries);
    OrderedIsSorted(ordered);
  }

  /** The header, the records, and the header filled in at the end. */
  method WriteFile(ctx: Context, ordered: seq<Entry>) returns (status: Status, file: seq<byte>)
    ensures status == if |FileText(ctx, ordered)| <= MAX_FILE then Ok else LimitExceeded
    ensures status == Ok ==> file == FileText(ctx, ordered)
  {
    ghost var records := RecordsText(Payload, ordered);
    SealSize(ctx.digest, |ordered|, records);
    var writer := new SchemaWriter();
    var zeros := seq(HEADER_SIZE, _ => 0);
    var ok := writer.Put(zeros);
    assert [] + zeros == zeros;
    ok := WriteRecords(ordered, writer);
    if !ok {
      return writer.status, [];
    }
    HeaderFilled(zeros, records);
    status, file := Ok, Seal(ctx.digest, |ordered|, writer.data[HEADER_SIZE..]);
  }

  // ----- Deserialise -----

  /** A cursor over immutable bytes. */
  class SchemaReader {
    const data: seq<byte>
    var position: nat

    ghost predicate Valid()
      reads this
    {
      position <= |data|
    }

    function Rest(): seq<byte>
      requires Valid()
      reads this
    {
      data[position..]
    }

    constructor (data: seq<byte>, position: nat)
      requires position <= |data|
      ensures Valid() && this.data == data && this.position == position && Rest() == data[position..]
    {
      this.data, this.position := data, position;
    }

    method Take(n: nat) returns (ok: bool, bytes: seq<byte>)
      requires Valid()
      modifies this
      ensures Valid() && ok == TakeBytes(n, old(Rest())).Taken?
      ensures ok ==> TakeBytes(n, old(Rest())) == Taken(bytes, Rest())
    {
      if n > |data| - position {
        return false, [];
      }
      bytes := data[position..position + n];
      assert data[position..][..n] == bytes && data[position..][n..] == data[position + n..];
      position := position + n;
      ok := true;
    }

    /** A chain of fixed-width reads that stops at the first failure. */
    method TakeAll(widths: seq<nat>) returns (ok: bool, words: seq<nat>)
      requires Valid()
      modifies this
      ensures Valid() && ok == TakeWords(widths, old(Rest())).Taken?
      ensures ok ==> TakeWords(widths, old(Rest())) == Taken(words, Rest())
    {
      words := [];
      ghost var whole := TakeWords(widths, Rest());
      Prefixed([], whole);
      assert widths[0..] == widths;
      for i := 0 to |widths|
        invariant Valid() && whole == Behind(words, TakeWords(widths[i..], Rest()))
      {
        ghost var here := Rest();
        assert widths[i..][1..] == widths[i + 1..];
        var bytes;
        ok, bytes := Take(widths[i]);
        if !ok {
          return;
        }
        BehindStep(words, FromLittleEndian(bytes), TakeWords(widths[i + 1..], Rest()));
        words := words + [FromLittleEndian(bytes)];
      }
      assert widths[|widths|..] == [];
      Prefixed(words, whole);
      ok := true;
    }
  }

  function Behind<T>(done: seq<T>, r: Taken<seq<T>>): Taken<seq<T>> {
    match r
    case Short => Short
    case Taken(more, rest) => Taken(done + more, rest)
  }

  lemma Prefixed<T>(done: seq<T>, r: Taken<seq<T>>)
    ensures Behind([], r) == r && done + [] == done
  {
    if r.Taken? {
      assert [] + r.value == r.value;
    }
  }

  lemma BehindStep<T>(done: seq<T>, x: T, r: Taken<seq<T>>)
    ensures Behind(done, Behind([x], r)) == Behind(done + [x], r)
  {
    if r.Taken? {
      assert done + ([x] + r.value) == done + [x] + r.value;
    }
  }

  method ReadFixed(reader: SchemaReader) returns (status: Status, f: Fixed)
    requires reader.Valid()
    modifies reader
    ensures reader.Valid()
    ensures match TakeFixed(old(reader.Rest()))
            case Fail(reason) => status == reason && status != Ok
            case Done(value, rest) => status == Ok && f == value && reader.Rest() == rest
  {
    f := Fixed(Key(0, [], 0, 0, 0, false, false, false, seq(HASH_SIZE, _ => 0), seq(HASH_SIZE, _ => 0)), []);
    ghost var s := reader.Rest();
    var ok, w := reader.TakeAll(IDENTITY);
    if !ok {
      return InvalidFormat, f;
    }
    WordsPrintBack(IDENTITY, s);
    FourByteWords(IDENTITY, w);
    if w[1] == 0 || w[1] > MAX_UNITY_VERSION {
      return if w[1] > MAX_UNITY_VERSION then LimitExceeded else InvalidFormat, f;
    }
    var unity;
    ok, unity := reader.Take(w[1]);
    if !ok || 0 in unity {
      return InvalidFormat, f;
    }
    ok, f := ReadNumbers(reader, w[0], unity, f);
    status := if ok then Ok else InvalidFormat;
  }

  /** The numbers, hashes and counts: any failure here is a malformed record. */
  method ReadNumbers(reader: SchemaReader, fileVersion: u32, unity: seq<byte>, nothing: Fixed)
    returns (ok: bool, f: Fixed)
    requires reader.Valid()
    modifies reader
    ensures reader.Valid()
    ensures match TakeNumbers(fileVersion, unity, old(reader.Rest()))
            case Fail(reason) => !ok && reason == InvalidFormat
            case Done(value, rest) => ok && f == value && reader.Rest() == rest
  {
    f := nothing;
    ghost var s := reader.Rest();
    var numbers, scriptHash, typeHash;
    ok, numbers := reader.TakeAll(NUMBERS);
    if !ok {
      return;
    }
    NumbersFit(s);
    if numbers[3] >= 8 {
      return false, f;
    }
    ok, scriptHash := reader.Take(HASH_SIZE);
    if !ok {
      return;
    }
    ok, typeHash := reader.Take(HASH_SIZE);
    if !ok {
      return;
    }
    ok, f := ReadCounts(reader, KeyOf(fileVersion, unity, numbers, scriptHash, typeHash));
  }

  method ReadCounts(reader: SchemaReader, key: Key) returns (ok: bool, f: Fixed)
    requires reader.Valid()
    modifies reader
    ensures reader.Valid()
    ensures match TakeCounts(key, old(reader.Rest()))
            case Fail(reason) => !ok && reason == InvalidFormat
            case Done(value, rest) => ok && f == value && reader.Rest() == rest
  {
    f := Fixed(key, []);
    ghost var s := reader.Rest();
    var counts;
    ok, counts := reader.TakeAll(COUNTS);
    if !ok {
      return;
    }
    WordsPrintBack(COUNTS, s);
    FourByteWords(COUNTS, counts);
    if counts[0] >= 2 {
      return false, f;
    }
    f := Fixed(key, Counts(counts));
  }

  method ReadNodes(reader: SchemaReader, count: nat) returns (ok: bool, nodes: seq<Node>)
    requires reader.Valid()
    modifies reader
    ensures reader.Valid() && ok == TakeNodes(count, old(reader.Rest())).Taken?
    ensures ok ==> TakeNodes(count, old(reader.Rest())) == Taken(nodes, reader.Rest())
  {
    nodes := [];
    ghost var whole := TakeNodes(count, reader.Rest());
    Prefixed([], whole);
    for i := 0 to count
      invariant reader.Valid() && whole == Behind(nodes, TakeNodes(count - i, reader.Rest()))
    {
      ghost var s := reader.Rest();
      var w;
      ok, w := reader.TakeAll(NODE);
      if !ok {
        return;
      }
      WordsPrintBack(NODE, s);
      BehindStep(nodes, NodeOf(w), TakeNodes(count - i - 1, reader.Rest()));
      nodes := nodes + [NodeOf(w)];
    }
    Prefixed(nodes, whole);
    ok := true;
  }

  method ReadDependencies(reader: SchemaReader, count: nat) returns (ok: bool, dependencies: seq<i32>)
    requires reader.Valid()
    modifies reader
    ensures reader.Valid() && ok == TakeDependencies(count, old(reader.Rest())).Taken?
    ensures ok ==> TakeDependencies(count, old(reader.Rest())) == Taken(dependencies, reader.Rest())
  {
    dependencies := [];
    ghost var whole := TakeDependencies(count, reader.Rest());
    Prefixed([], whole);
    for i := 0 to count
      invariant reader.Valid() && whole == Behind(dependencies, TakeDependencies(count - i, reader.Rest()))
    {
      ghost var s := reader.Rest();
      var w;
      ok, w := reader.TakeAll(DEPENDENCY);
      if !ok {
        return;
      }
      WordsPrintBack(DEPENDENCY, s);
      FourByteWords(DEPENDENCY, w);
      BehindStep(dependencies, Signed32(w[0]), TakeDependencies(count - i - 1, reader.Rest()));
      dependencies := dependencies + [Signed32(w[0])];
    }
    Prefixed(dependencies, whole);
    ok := true;
  }

  /** `read_owned_string` within an already admitted limit. */
  method ReadName(reader: SchemaReader, size: nat) returns (ok: bool, name: CString)
    requires reader.Valid()
    modifies reader
    ensures reader.Valid() && ok == TakeName(size, old(reader.Rest())).Taken?
    ensures ok ==> TakeName(size, old(reader.Rest())) == Taken(name, reader.Rest())
  {
    name := [];
    var bytes;
    ok, bytes := reader.Take(size);
    if !ok || 0 in bytes {
      return false, [];
    }
    name := bytes;
  }

  method ReadNames(reader: SchemaReader, refType: bool, counts: seq<nat>) returns (ok: bool, names: Names)
    requires reader.Valid() && |counts| == 7
    modifies reader
    ensures reader.Valid() && ok == TakeNames(refType, counts, old(reader.Rest())).Taken?
    ensures ok ==> TakeNames(refType, counts, old(reader.Rest())) == Taken(names, reader.Rest())
  {
    names := Names(None, None, None);
    if !refType {
      return counts[4] == 0 && counts[5] == 0 && counts[6] == 0, names;
    }
    var c, n, a;
    ok, c := ReadName(reader, counts[4]);
    if !ok {
      return;
    }
    ok, n := ReadName(reader, counts[5]);
    if !ok {
      return;
    }
    ok, a := ReadName(reader, counts[6]);
    if !ok {
      return;
    }
    names := Names(Some(c), Some(n), Some(a));
  }

  method ReadBody(reader: SchemaReader, f: Fixed) returns (body: Option<Schema>)
    requires reader.Valid() && FixedShape(f)
    modifies reader
    ensures reader.Valid() && body == TakeBody(f, old(reader.Rest()))
  {
    var ok, nodes := ReadNodes(reader, f.counts[1]);
    if !ok {
      return None;
    }
    var strings;
    ok, strings := reader.Take(f.counts[2]);
    if !ok {
      return None;
    }
    var dependencies;
    ok, dependencies := ReadDependencies(reader, f.counts[3]);
    if !ok {
      return None;
    }
    var names;
    ok, names := ReadNames(reader, f.key.refType, f.counts);
    if !ok || reader.position != |reader.data| {
      return None;
    }
    body := Some(Schema(f.key.typeId, f.counts[0] == 1, f.key.scriptIndex, f.key.scriptHash, f.key.typeHash, nodes,
                        strings, dependencies, f.key.refType, names.className, names.nameSpace, names.assembly));
  }

  lemma BindStep(ctx: Context, strings: seq<byte>, nodes: seq<Node>, i: nat)
    requires i < |nodes|
    ensures nodes[i..][0] == nodes[i] && nodes[i..][1..] == nodes[i + 1..]
  {
  }

  method OffsetsResolve(ctx: Context, strings: seq<byte>, nodes: seq<Node>) returns (ok: bool)
    ensures ok == Bind(ctx, strings, nodes).Some?
  {
    assert nodes[0..] == nodes;
    for i := 0 to |nodes|
      invariant Bind(ctx, strings, nodes).None? <==> Bind(ctx, strings, nodes[i..]).None?
    {
      BindStep(ctx, strings, nodes, i);
      if SchemaNames.Resolve(strings, ctx.common, nodes[i].typeOffset).None?
         || SchemaNames.Resolve(strings, ctx.common, nodes[i].nameOffset).None?
      {
        return false;
      }
    }
    ok := true;
  }

  function After<T>(done: seq<T>, more: Option<seq<T>>): Option<seq<T>> {
    if more.None? then None else Some(done + more.value)
  }

  lemma AfterStep<T>(done: seq<T>, x: T, more: Option<seq<T>>)
    ensures After(done, After([x], more)) == After(done + [x], more)
  {
    if more.Some? {
      assert done + ([x] + more.value) == done + [x] + more.value;
    }
  }

  lemma AfterNothing<T>(more: Option<seq<T>>)
    ensures After([], more) == more
  {
    if more.Some? {
      assert [] + more.value == more.value;
    }
  }

  /** `typetree_bind_node_strings`: every offset is checked before any node changes. */
  method BindNodes(ctx: Context, strings: seq<byte>, nodes: seq<Node>) returns (bound: Option<seq<Node>>)
    ensures bound == Bind(ctx, strings, nodes)
  {
    var ok := OffsetsResolve(ctx, strings, nodes);
    if !ok {
      return None;
    }
    var result := [];
    ghost var whole := Bind(ctx, strings, nodes);
    assert nodes[0..] == nodes;
    AfterNothing(whole);
    for i := 0 to |nodes|
      invariant whole.Some? && whole == After(result, Bind(ctx, strings, nodes[i..]))
    {
      BindStep(ctx, strings, nodes, i);
      var t := SchemaNames.Resolve(strings, ctx.common, nodes[i].typeOffset);
      var n := SchemaNames.Resolve(strings, ctx.common, nodes[i].nameOffset);
      var node := nodes[i].(typeName := t.value, name := n.value);
      AfterStep(result, node, Bind(ctx, strings, nodes[i + 1..]));
      result := result + [node];
    }
    assert result + [] == result;
    bound := Some(result);
  }

  method ReadPayload(ctx: Context, payload: seq<byte>, last: Option<Key>) returns (r: Decoded)
    ensures r == DecodePayload(ctx, payload, last)
    ensures r.Bad? ==> r.status != Ok
  {
    var reader := new SchemaReader(payload, 0);
    assert payload[0..] == payload;
    var status, f := ReadFixed(reader);
    if status != Ok {
      return Bad(status);
    }
    status := CheckFixed(f, last);
    if status != Ok {
      return Bad(status);
    }
    var raw := ReadBody(reader, f);
    if raw.None? {
      return Bad(InvalidFormat);
    }
    var nodes := BindNodes(ctx, raw.value.strings, raw.value.nodes);
    if nodes.None? {
      return Bad(InvalidFormat);
    }
    var schema := raw.value.(nodes := nodes.value);
    status := CheckSchema(ctx, f.key, schema);
    r := if status != Ok then Bad(status) else Good(Entry(f.key, schema));
  }

  // ----- The replacement registry -----

  function LastKey(entries: seq<Entry>): Option<Key> {
    if entries == [] then None else Some(entries[|entries| - 1].key)
  }

  /** An entry above every entry is learned at the end. */
  lemma {:induction false} InsertAtEnd(entries: seq<Entry>, e: Entry)
    requires forall f :: f in entries ==> Before(f, e)
    ensures Insert(entries, e) == entries + [e]
  {
    if entries != [] {
      assert entries[0] in entries;
      InsertAtEnd(entries[1..], e);
    }
  }

  lemma LearnsAtEnd(ctx: Context, entries: seq<Entry>, e: Entry)
    requires ValidEntries(ctx, entries) && |entries| < MAX_ENTRIES && CheckSchema(ctx, e.key, e.schema) == Ok
    requires Follows(LastKey(entries), e.key)
    ensures LearnStatus(ctx, entries, e.key, e.schema) == Ok && Learned(ctx, entries, e.key, e.schema) == entries + [e]
  {
    forall f | f in entries ensures Before(f, e) {
      var i :| 0 <= i < |entries| && entries[i] == f;
      var last := entries[|entries| - 1];
      if i < |entries| - 1 {
        assert Before(entries[i], last);
        KeysTransitive(f.key, last.key, e.key);
      }
    }
    KeysTotal(e.key, e.key);
    forall i | 0 <= i < |entries| ensures entries[i].key != e.key {
      assert Before(entries[i], e);
    }
    InsertAtEnd(entries, e);
  }

  /** `read_schema_record`: the next record is parsed and learned, or the status says why not. */
  method ReadRecord(ctx: Context, reader: SchemaReader, registry: Registry) returns (status: Status)
    requires reader.Valid() && registry.Valid(ctx) && |registry.entries| < MAX_ENTRIES
    modifies reader, registry
    ensures reader.Valid() && registry.Valid(ctx)
    ensures status == Ok ==> TakeFrame(old(reader.Rest())).Taken? && reader.Rest() == TakeFrame(old(reader.Rest())).rest
    ensures match TakeFrame(old(reader.Rest()))
            case Short => status == InvalidFormat
            case Taken(payload, _) =>
              match DecodePayload(ctx, payload, LastKey(old(registry.entries)))
              case Bad(reason) => status == reason && status != Ok
              case Good(e) => status == Ok && registry.entries == old(registry.entries) + [e]
  {
    ghost var s := reader.Rest();
    var ok, w := reader.TakeAll(RECORD);
    if !ok {
      return InvalidFormat;
    }
    WordsPrintBack(RECORD, s);
    if w[0] < 8 {
      return InvalidFormat;
    }
    var payload;
    ok, payload := reader.Take(w[0] - 8);
    if !ok {
      return InvalidFormat;
    }
    var last := LastKey(registry.entries);
    var r := ReadPayload(ctx, payload, last);
    if r.Bad? {
      return r.status;
    }
    RegistryRoundTrip.PayloadPrintsBack(ctx, payload, last);
    LearnsAtEnd(ctx, registry.entries, r.entry);
    status := registry.Learn(ctx, r.entry.key, r.entry.schema, true);
  }

  function ReadBehind(done: seq<Entry>, r: Reading<seq<Entry>>): Reading<seq<Entry>> {
    match r
    case Fail(status) => Fail(status)
    case Done(more, rest) => Done(done + more, rest)
  }

  /** What the records still to come make of the entries already learned. */
  function Pending(parse: Parser, done: seq<Entry>, count: nat, s: seq<byte>): Reading<seq<Entry>> {
    ReadBehind(done, DecodeRecords(parse, count, s, LastKey(done)))
  }

  lemma PendingStep(parse: Parser, done: seq<Entry>, count: nat, s: seq<byte>)
    requires count > 0
    ensures match TakeFrame(s)
            case Short => Pending(parse, done, count, s) == Fail(InvalidFormat)
            case Taken(payload, rest) =>
              match parse(payload, LastKey(done))
              case Bad(status) => Pending(parse, done, count, s) == Fail(status)
              case Good(e) => Pending(parse, done, count, s) == Pending(parse, done + [e], count - 1, rest)
  {
    var frame, last := TakeFrame(s), LastKey(done);
    if frame.Taken? && parse(frame.value, last).Good? {
      var e := parse(frame.value, last).entry;
      assert LastKey(done + [e]) == Some(e.key);
      var more := DecodeRecords(parse, count - 1, frame.rest, Some(e.key));
      if more.Done? {
        assert done + ([e] + more.value) == done + [e] + more.value;
      }
    }
  }

  lemma PendingEnds(parse: Parser, done: seq<Entry>, count: nat, s: seq<byte>)
    ensures Pending(parse, [], count, s) == DecodeRecords(parse, count, s, None)
    ensures Pending(parse, done, 0, s) == Done(done, s)
  {
    var r := DecodeRecords(parse, count, s, None);
    if r.Done? {
      assert [] + r.value == r.value;
    }
    assert done + [] == done;
  }

  ghost predicate ParsesAt(parse: Parser, ctx: Context, payload: seq<byte>, last: Option<Key>) {
    parse(payload, last) == DecodePayload(ctx, payload, last)
  }

  /** `parse` reads record payloads. */
  ghost predicate ParsesPayloads(parse: Parser, ctx: Context) {
    forall payload, last {:trigger ParsesAt(parse, ctx, payload, last)} :: ParsesAt(parse, ctx, payload, last)
  }

  /** One record, seen from the records still to come. */
  method NextRecord(ctx: Context, reader: SchemaReader, ghost count: nat, replacement: Registry, ghost parse: Parser)
    returns (status: Status)
    requires reader.Valid() && replacement.Valid(ctx) && |replacement.entries| < MAX_ENTRIES && count > 0
    requires ParsesPayloads(parse, ctx)
    modifies reader, replacement
    ensures reader.Valid() && replacement.Valid(ctx)
    ensures status != Ok ==> Pending(parse, old(replacement.entries), count, old(reader.Rest())) == Fail(status)
    ensures status == Ok ==> |replacement.entries| == |old(replacement.entries)| + 1
    ensures status == Ok ==> Pending(parse, old(replacement.entries), count, old(reader.Rest()))
                             == Pending(parse, replacement.entries, count - 1, reader.Rest())
  {
    PendingStep(parse, replacement.entries, count, reader.Rest());
    ghost var frame := TakeFrame(reader.Rest());
    assert frame.Taken? ==> ParsesAt(parse, ctx, frame.value, LastKey(replacement.entries));
    status := ReadRecord(ctx, reader, replacement);
  }

  method ReadRecords(ctx: Context, reader: SchemaReader, count: nat, replacement: Registry, ghost parse: Parser)
    returns (status: Status)
    requires reader.Valid() && replacement.Valid(ctx) && replacement.entries == [] && count <= MAX_ENTRIES
    requires ParsesPayloads(parse, ctx)
    modifies reader, replacement
    ensures reader.Valid() && replacement.Valid(ctx)
    ensures match DecodeRecords(parse, count, old(reader.Rest()), None)
            case Fail(reason) => status == reason && status != Ok
            case Done(entries, rest) => status == Ok && replacement.entries == entries && reader.Rest() == rest
  {
    ghost var whole, todo := Pending(parse, [], count, reader.Rest()), count;
    PendingEnds(parse, [], count, reader.Rest());
    for i := 0 to count
      invariant reader.Valid() && replacement.Valid(ctx) && |replacement.entries| == i
      invariant todo == count - i && whole == Pending(parse, replacement.entries, todo, reader.Rest())
    {
      status := NextRecord(ctx, reader, todo, replacement, parse);
      if status != Ok {
        return;
      }
      todo := todo - 1;
    }
    PendingEnds(parse, replacement.entries, 0, reader.Rest());
    status := Ok;
  }

  /** The header checks, in order. */
  method OpenFile(ctx: Context, data: seq<byte>) returns (envelope: Envelope)
    ensures envelope == Open(ctx.digest, data)
    ensures envelope.Unreadable? ==> envelope.status != Ok
  {
    if |data| < HEADER_SIZE {
      return Unreadable(InvalidFormat);
    }
    if |data| > MAX_FILE {
      return Unreadable(LimitExceeded);
    }
    envelope := Open(ctx.digest, data);
  }

  /** `typetree_schema_registry_deserialize_replace`: the registry becomes exactly what the file says,
      or stays what it was. */
  method DeserializeReplace(ctx: Context, registry: Registry, data: seq<byte>) returns (status: Status)
    requires registry.Valid(ctx)
    modifies registry
    ensures registry.Valid(ctx) && KeysAscend(registry.entries)
    ensures match DecodeFile(ctx, data)
            case Loaded(entries) => status == Ok && registry.entries == entries
            case Refused(reason) => status == reason && status != Ok && registry.entries == old(registry.entries)
    ensures status == Ok ==> data == RegistryLayout.FileSpelled(ctx.digest, registry.entries)
    ensures status == Ok <==> Readable(ctx, data)
    ensures status == Ok ==> Saveable(ctx, registry.entries)
  {
    ReadableDecodes(ctx, data);
    SortedKeysAscend(registry.entries);
    var envelope := OpenFile(ctx, data);
    if envelope.Unreadable? {
      return envelope.status;
    }
    OpenedWasSealed(ctx.digest, data);
    var replacement := new Registry();
    var ok := replacement.Reserve(envelope.count);
    var reader := new SchemaReader(data, HEADER_SIZE);
    status := ReadRecords(ctx, reader, envelope.count, replacement, PayloadParser(ctx));
    if status != Ok {
      return;
    }
    if reader.position != |data| {
      return InvalidFormat;
    }
    SortedKeysAscend(replacement.entries);
    RegistryRoundTrip.SaveInvertsLoad(ctx, data);
    RegistryLayout.FileIsSpelled(ctx, replacement.entries);
    registry.entries, registry.capacity := replacement.entries, replacement.capacity;
  }
}
