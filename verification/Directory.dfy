/** The object directory of a version 22 serialized file: one scanner run twice, first to measure and then
    to fill retained tables (src/io/serialized_file_directory.c). The admitted file prefix is a parameter. */
module Directory {
  import opened Bytes
  import opened MetadataReader
  import ObjectTable

  const DEPENDENCY_SIZE: nat := 4
  const OBJECT_SIZE: nat := 24

  /** What the prefix query established. */
  datatype Header = Header(dataOffset: u64, fileSize: u64, treeEnabled: bool)

  datatype Limits = Limits(maxTypes: nat, maxObjects: nat, tree: TreeLimits, maxDependencies: u64)

  datatype Trailer = Trailer(tree: Tree, dependencyCount: Word, dependencies: Span)

  datatype TypeRow = TypeRow(prefix: TypePrefix, trailer: Option<Trailer>)

  datatype ObjectRow = ObjectRow(pathIdBits: u64, relativeOffset: u64, byteSize: u32, typeOrdinal: u32, payload: Span)

  // ----- The rows as functions -----

  function TakeTrailer(input: Input, limits: Limits, at: At): (r: Reply<Trailer>)
    ensures r.Got? ==> at.position <= r.at.position && r.at.rows == at.rows
  {
    match TakeTree(input, limits.tree, at)
    case Refused(reason) => Refused(reason)
    case Got(tree, next) => TakeDependencies(input, limits, tree, next)
  }

  function TakeDependencies(input: Input, limits: Limits, tree: Tree, at: At): (r: Reply<Trailer>)
    ensures r.Got? ==> at.position <= r.at.position && r.at.rows == at.rows
  {
    match TakeCount(input, at)
    case Refused(reason) => Refused(reason)
    case Got(count, behind) =>
      if behind.extra + count.bits > limits.maxDependencies then Refused(DependencyLimit)
      else
        match Take(input, behind.(extra := behind.extra + count.bits), DEPENDENCY_SIZE * count.bits)
        case Refused(reason) => Refused(reason)
        case Got(words, next) => Got(Trailer(tree, count, words), next)
  }

  function TakeTypeRow(input: Input, header: Header, limits: Limits, at: At): (r: Reply<TypeRow>)
    ensures r.Got? ==> at.position <= r.at.position && r.at.rows == at.rows
  {
    match TakeTypePrefix(input, at)
    case Refused(reason) => Refused(reason)
    case Got(prefix, at1) =>
      if !header.treeEnabled then Got(TypeRow(prefix, None), at1)
      else
        match TakeTrailer(input, limits, at1)
        case Refused(reason) => Refused(reason)
        case Got(trailer, next) => Got(TypeRow(prefix, Some(trailer)), next)
  }

  /** The four fields of an object row, checked against the data region and the type table. */
  function DecodeObject(input: Input, header: Header, typeCount: nat, source: Span): Option<ObjectRow>
    requires source.size == OBJECT_SIZE && source.offset + source.size <= |input.bytes|
  {
    var b := Content(input, source);
    var pathId, offset := Decode64(b[..8], input.bigEndian), Decode64(b[8..16], input.bigEndian);
    var size, ordinal := Decode32(b[16..20], input.bigEndian), Decode32(b[20..24], input.bigEndian);
    if header.dataOffset + offset + size > header.fileSize || ordinal >= typeCount then None
    else Some(ObjectRow(pathId, offset, size, ordinal, Span(header.dataOffset + offset, size)))
  }

  /** Why an object row is refused: its range first, then its type. */
  function ObjectRefusal(input: Input, header: Header, source: Span): Reason
    requires source.size == OBJECT_SIZE && source.offset + source.size <= |input.bytes|
  {
    var b := Content(input, source);
    if header.dataOffset + Decode64(b[8..16], input.bigEndian) + Decode32(b[16..20], input.bigEndian) > header.fileSize
    then ObjectRange else ObjectType
  }

  function TakeObjectRow(input: Input, header: Header, typeCount: nat, at: At): (r: Reply<ObjectRow>)
    ensures r.Got? ==> r.at == at.(position := at.position + OBJECT_SIZE)
  {
    match Take(input, at, OBJECT_SIZE)
    case Refused(reason) => Refused(reason)
    case Got(source, next) =>
      match DecodeObject(input, header, typeCount, source)
      case None => Refused(ObjectRefusal(input, header, source))
      case Some(row) => Got(row, next)
  }

  function TypeStep(input: Input, header: Header, limits: Limits): Step<TypeRow> {
    at => TakeTypeRow(input, header, limits, at)
  }

  function ObjectStep(input: Input, header: Header, typeCount: nat): Step<ObjectRow> {
    at => TakeObjectRow(input, header, typeCount, at)
  }

  // ----- The directory as a function -----

  datatype Types = Types(count: Word, rows: seq<Row<TypeRow>>)

  datatype Objects = Objects(count: Word, padding: Span, rows: seq<Row<ObjectRow>>)

  datatype View = View(types: Types, objects: Objects)

  function TakeTypes(input: Input, header: Header, limits: Limits, at: At): Reply<Types> {
    match TakeCount(input, at)
    case Refused(reason) => Refused(reason)
    case Got(count, at1) =>
      if count.bits > limits.maxTypes then Refused(CountLimit)
      else
        match TakeRows(TypeStep(input, header, limits), count.bits, at1)
        case Refused(reason) => Refused(reason)
        case Got(rows, next) => Got(Types(count, rows), next)
  }

  /** Only a non-empty object table is aligned. */
  function Padding(position: nat, count: nat): nat {
    if count == 0 then 0 else PaddingAt(position)
  }

  function TakeObjectTable(input: Input, maximum: nat, step: Step<ObjectRow>, at: At): Reply<Objects> {
    match TakeCount(input, at)
    case Refused(reason) => Refused(reason)
    case Got(count, at1) =>
      if count.bits > maximum then Refused(CountLimit)
      else
        match Take(input, at1, Padding(at1.position, count.bits))
        case Refused(reason) => Refused(reason)
        case Got(padding, at2) =>
          match TakeRows(step, count.bits, at2)
          case Refused(reason) => Refused(reason)
          case Got(rows, next) => Got(Objects(count, padding, rows), next)
  }

  function TakeObjects(input: Input, header: Header, limits: Limits, typeCount: nat, at: At): Reply<Objects> {
    TakeObjectTable(input, limits.maxObjects, ObjectStep(input, header, typeCount), at)
  }

  function TakeDirectory(input: Input, header: Header, limits: Limits, at: At): Reply<View> {
    match TakeTypes(input, header, limits, at)
    case Refused(reason) => Refused(reason)
    case Got(types, at1) =>
      match TakeObjects(input, header, limits, types.count.bits, at1)
      case Refused(reason) => Refused(reason)
      case Got(objects, next) => Got(View(types, objects), next)
  }

  // ----- Tiling -----

  function PrefixFields(p: TypePrefix): seq<Span> {
    [p.classId.source, p.stripped, p.scriptIndex] + (if p.scriptHash.Some? then [p.scriptHash.value] else []) +
      [p.typeHash]
  }

  function TreeFields(t: Tree): seq<Span> {
    [t.nodeCount.source, t.stringCount.source, t.nodes, t.strings]
  }

  function TypeFields(row: TypeRow): seq<Span> {
    PrefixFields(row.prefix) + (if row.trailer.Some? then TrailerFields(row.trailer.value) else [])
  }

  lemma TileNext(spans: seq<Span>, next: Span, start: nat, middle: nat)
    requires Tiles(spans, start, middle) && next.offset == middle
    ensures Tiles(spans + [next], start, middle + next.size)
  {
    assert [next][1..] == [];
    TilesJoin(spans, [next], start, middle, middle + next.size);
  }

  lemma PrefixTiles(input: Input, at: At)
    requires TakeTypePrefix(input, at).Got?
    ensures Tiles(PrefixFields(TakeTypePrefix(input, at).value), at.position, TakeTypePrefix(input, at).at.position)
  {
    var p, a := TakeTypePrefix(input, at).value, at.position;
    assert Tiles([], a, a);
    TileNext([], p.classId.source, a, a);
    TileNext([p.classId.source], p.stripped, a, a + 4);
    TileNext([p.classId.source, p.stripped], p.scriptIndex, a, a + 5);
    var fields := [p.classId.source, p.stripped, p.scriptIndex];
    assert [] + [p.classId.source] == [p.classId.source];
    assert [p.classId.source] + [p.stripped] == [p.classId.source, p.stripped];
    assert [p.classId.source, p.stripped] + [p.scriptIndex] == fields;
    if p.scriptHash.Some? {
      TileNext(fields, p.scriptHash.value, a, a + 7);
      TileNext(fields + [p.scriptHash.value], p.typeHash, a, a + 23);
    } else {
      TileNext(fields, p.typeHash, a, a + 7);
      assert fields + [] == fields;
    }
  }

  lemma TreeTiles(input: Input, limits: TreeLimits, at: At)
    requires TakeTree(input, limits, at).Got?
    ensures Tiles(TreeFields(TakeTree(input, limits, at).value), at.position, TakeTree(input, limits, at).at.position)
  {
    var t, a := TakeTree(input, limits, at).value, at.position;
    var n := NODE_BYTES * t.nodeCount.bits;
    assert Tiles([], a, a) && [] + [t.nodeCount.source] == [t.nodeCount.source];
    TileNext([], t.nodeCount.source, a, a);
    TileNext([t.nodeCount.source], t.stringCount.source, a, a + 4);
    assert [t.nodeCount.source] + [t.stringCount.source] == [t.nodeCount.source, t.stringCount.source];
    TileNext([t.nodeCount.source, t.stringCount.source], t.nodes, a, a + 8);
    assert [t.nodeCount.source, t.stringCount.source] + [t.nodes] ==
      [t.nodeCount.source, t.stringCount.source, t.nodes];
    TileNext([t.nodeCount.source, t.stringCount.source, t.nodes], t.strings, a, a + 8 + n);
    assert [t.nodeCount.source, t.stringCount.source, t.nodes] + [t.strings] == TreeFields(t);
  }

  function TrailerFields(t: Trailer): seq<Span> {
    TreeFields(t.tree) + [t.dependencyCount.source] + [t.dependencies]
  }

  lemma TrailerTiles(input: Input, limits: Limits, at: At)
    requires TakeTrailer(input, limits, at).Got?
    ensures var r := TakeTrailer(input, limits, at); Tiles(TrailerFields(r.value), at.position, r.at.position)
  {
    var tree := TakeTree(input, limits.tree, at);
    var t := TakeTrailer(input, limits, at).value;
    var b := tree.at.position;
    TreeTiles(input, limits.tree, at);
    TileNext(TreeFields(t.tree), t.dependencyCount.source, at.position, b);
    TileNext(TreeFields(t.tree) + [t.dependencyCount.source], t.dependencies, at.position, b + 4);
  }

  /** The fields of a type row tile the row. */
  lemma TypeRowTiles(input: Input, header: Header, limits: Limits, at: At)
    requires TakeTypeRow(input, header, limits, at).Got?
    ensures var r := TakeTypeRow(input, header, limits, at); Tiles(TypeFields(r.value), at.position, r.at.position)
  {
    var prefix := TakeTypePrefix(input, at);
    var r := TakeTypeRow(input, header, limits, at);
    PrefixTiles(input, at);
    if header.treeEnabled {
      TrailerTiles(input, limits, prefix.at);
      TilesJoin(PrefixFields(prefix.value), TrailerFields(r.value.trailer.value), at.position, prefix.at.position,
                r.at.position);
    } else {
      assert PrefixFields(prefix.value) + [] == PrefixFields(prefix.value);
    }
  }

  function TypesFields(types: Types): seq<Span> {
    [types.count.source] + Sources(types.rows)
  }

  function ObjectsFields(objects: Objects): seq<Span> {
    [objects.count.source] + [objects.padding] + Sources(objects.rows)
  }

  lemma TypesAdvance(input: Input, header: Header, limits: Limits)
    ensures Advances(TypeStep(input, header, limits))
  {
  }

  lemma ObjectsAdvance(input: Input, header: Header, typeCount: nat)
    ensures Advances(ObjectStep(input, header, typeCount))
  {
  }

  lemma TypesTile(input: Input, header: Header, limits: Limits, at: At)
    requires TakeTypes(input, header, limits, at).Got?
    ensures var r := TakeTypes(input, header, limits, at);
            && |r.value.rows| == r.value.count.bits && at.position <= r.at.position
            && r.at.rows == at.rows + |r.value.rows| && Tiles(TypesFields(r.value), at.position, r.at.position)
  {
    var count := TakeCount(input, at);
    TypesAdvance(input, header, limits);
    RowsTile(TypeStep(input, header, limits), count.value.bits, count.at);
    assert [count.value.source][1..] == [];
    assert Tiles([count.value.source], at.position, count.at.position);
    TilesJoin([count.value.source], Sources(TakeTypes(input, header, limits, at).value.rows), at.position,
              count.at.position, TakeTypes(input, header, limits, at).at.position);
  }

  /** An object table is its count, the padding behind it and the rows that follow. */
  lemma ObjectTableConsists(input: Input, maximum: nat, step: Step<ObjectRow>, at: At)
    requires TakeObjectTable(input, maximum, step, at).Got?
    ensures var count, r := TakeCount(input, at), TakeObjectTable(input, maximum, step, at);
            var padded := count.at.position + r.value.padding.size;
            && count.Got? && count.at == at.(position := at.position + 4)
            && r.value.count.source == Span(at.position, 4)
            && r.value.padding == Span(count.at.position, Padding(count.at.position, r.value.count.bits))
            && TakeRows(step, r.value.count.bits, at.(position := padded)) == Got(r.value.rows, r.at)
  {
  }

  lemma ObjectTableTiles(input: Input, maximum: nat, step: Step<ObjectRow>, at: At)
    requires Advances(step) && TakeObjectTable(input, maximum, step, at).Got?
    ensures var r := TakeObjectTable(input, maximum, step, at);
            && |r.value.rows| == r.value.count.bits
            && at.position + 4 + r.value.padding.size <= r.at.position
            && r.at.rows == at.rows + |r.value.rows| && Tiles(ObjectsFields(r.value), at.position, r.at.position)
  {
    var r := TakeObjectTable(input, maximum, step, at);
    var padded := at.position + 4 + r.value.padding.size;
    ObjectTableConsists(input, maximum, step, at);
    RowsTile(step, r.value.count.bits, at.(position := padded));
    ObjectFieldsTile(r.value, at.position, padded, r.at.position);
  }

  lemma ObjectsTile(input: Input, header: Header, limits: Limits, typeCount: nat, at: At)
    requires TakeObjects(input, header, limits, typeCount, at).Got?
    ensures var r := TakeObjects(input, header, limits, typeCount, at);
            && |r.value.rows| == r.value.count.bits && at.position <= r.at.position
            && r.at.rows == at.rows + |r.value.rows| && Tiles(ObjectsFields(r.value), at.position, r.at.position)
  {
    ObjectsAdvance(input, header, typeCount);
    ObjectTableTiles(input, limits.maxObjects, ObjectStep(input, header, typeCount), at);
  }

  lemma ObjectFieldsTile(objects: Objects, start: nat, padded: nat, end: nat)
    requires start + 4 <= padded && Tiles(Sources(objects.rows), padded, end)
    requires objects.count.source == Span(start, 4) && objects.padding == Span(start + 4, padded - start - 4)
    ensures Tiles(ObjectsFields(objects), start, end)
  {
    assert [objects.count.source][1..] == [];
    TileNext([objects.count.source], objects.padding, start, start + 4);
    TilesJoin([objects.count.source] + [objects.padding], Sources(objects.rows), start, padded, end);
  }

  /** The count word of a table weighs no more than the table. */
  lemma TypesOutweigh(input: Input, header: Header, limits: Limits, at: At)
    ensures var r := TakeTypes(input, header, limits, at); r.Got? ==> Weight(TakeCount(input, at).at) <= Weight(r.at)
  {
    var r := TakeTypes(input, header, limits, at);
    if r.Got? {
      var count := TakeCount(input, at);
      TypesAdvance(input, header, limits);
      RowsTile(TypeStep(input, header, limits), count.value.bits, count.at);
    }
  }

  lemma ObjectsOutweigh(input: Input, header: Header, limits: Limits, typeCount: nat, at: At)
    ensures var r := TakeObjects(input, header, limits, typeCount, at);
            r.Got? ==> Weight(TakeCount(input, at).at) + r.value.padding.size <= Weight(r.at)
                       && r.value.padding.size == Padding(TakeCount(input, at).at.position, r.value.count.bits)
  {
    var r := TakeObjects(input, header, limits, typeCount, at);
    if r.Got? {
      ObjectsAdvance(input, header, typeCount);
      ObjectTableTiles(input, limits.maxObjects, ObjectStep(input, header, typeCount), at);
      ObjectTableConsists(input, limits.maxObjects, ObjectStep(input, header, typeCount), at);
    }
  }

  /** Type rows, padding and object rows cover the scanned metadata without gap or overlap, and the weight
      of a scan is its bytes plus its rows. */
  lemma DirectoryTiles(input: Input, header: Header, limits: Limits, at: At)
    requires TakeDirectory(input, header, limits, at).Got?
    ensures var r := TakeDirectory(input, header, limits, at);
            && Tiles(TypesFields(r.value.types) + ObjectsFields(r.value.objects), at.position, r.at.position)
            && at.position <= r.at.position
            && Weight(r.at) - Weight(at)
               == (r.at.position - at.position) + |r.value.types.rows| + |r.value.objects.rows|
  {
    var types := TakeTypes(input, header, limits, at);
    TypesTile(input, header, limits, at);
    ObjectsTile(input, header, limits, types.value.count.bits, types.at);
    var objects := TakeObjects(input, header, limits, types.value.count.bits, types.at);
    TilesJoin(TypesFields(types.value), ObjectsFields(objects.value), at.position, types.at.position,
              objects.at.position);
  }

  // ----- What an object row promises -----

  /** The payload lies in the data region, and the type exists. */
  predicate Sound(header: Header, typeCount: nat, row: ObjectRow) {
    && header.dataOffset + row.relativeOffset + row.byteSize <= header.fileSize && row.typeOrdinal < typeCount
    && row.payload == Span(header.dataOffset + row.relativeOffset, row.byteSize)
  }

  lemma {:induction false} ObjectsAreSound(input: Input, header: Header, typeCount: nat, count: nat, at: At, i: nat)
    requires TakeRows(ObjectStep(input, header, typeCount), count, at).Got?
    requires i < |TakeRows(ObjectStep(input, header, typeCount), count, at).value|
    ensures Sound(header, typeCount, TakeRows(ObjectStep(input, header, typeCount), count, at).value[i].value)
    decreases i
  {
    if i > 0 {
      var row := Completed(at.position, TakeObjectRow(input, header, typeCount, at));
      ObjectsAreSound(input, header, typeCount, count - 1, row.at, i - 1);
    }
  }

  /** The record the object-table check makes of a row: the identifier is read as a signed word. */
  function RecordOf(row: ObjectRow): ObjectTable.Record {
    var bits := row.pathIdBits;
    ObjectTable.Record(if bits < 0x8000_0000_0000_0000 then bits else bits - 0x1_0000_0000_0000_0000,
                       row.relativeOffset, row.byteSize)
  }

  function RecordsOf(rows: seq<Row<ObjectRow>>): (r: seq<ObjectTable.Record>)
    ensures |r| == |rows|
  {
    seq(|rows|, i requires 0 <= i < |rows| => RecordOf(rows[i].value))
  }

  /** The premise of the object-table check: no admitted byte range wraps around. */
  lemma SoundObjectsAreInRange(header: Header, typeCount: nat, row: ObjectRow, pathId: i64)
    requires Sound(header, typeCount, row)
    ensures ObjectTable.InRange(ObjectTable.Record(pathId, row.relativeOffset, row.byteSize))
  {
  }

  predicate AllInRange(rows: seq<Row<ObjectRow>>) {
    forall r {:trigger ObjectTable.InRange(r)} :: r in RecordsOf(rows) ==> ObjectTable.InRange(r)
  }

  /** No row of an object table wraps around. */
  lemma RowsAreInRange(input: Input, header: Header, typeCount: nat, count: nat, at: At)
    requires TakeRows(ObjectStep(input, header, typeCount), count, at).Got?
    ensures AllInRange(TakeRows(ObjectStep(input, header, typeCount), count, at).value)
  {
    var rows := TakeRows(ObjectStep(input, header, typeCount), count, at).value;
    forall i | 0 <= i < |rows| ensures ObjectTable.InRange(RecordsOf(rows)[i]) {
      ObjectsAreSound(input, header, typeCount, count, at, i);
      SoundObjectsAreInRange(header, typeCount, rows[i].value, RecordOf(rows[i].value).pathId);
    }
  }

  lemma ObjectsAreInRange(input: Input, header: Header, limits: Limits, typeCount: nat, at: At)
    requires TakeObjects(input, header, limits, typeCount, at).Got?
    ensures AllInRange(TakeObjects(input, header, limits, typeCount, at).value.rows)
  {
    var objects := TakeObjects(input, header, limits, typeCount, at).value;
    ObjectTableConsists(input, limits.maxObjects, ObjectStep(input, header, typeCount), at);
    RowsAreInRange(input, header, typeCount, objects.count.bits,
                   at.(position := at.position + 4 + objects.padding.size));
  }

  /** No byte range of a directory that reads wraps around. */
  lemma DirectoryRecordsAreInRange(input: Input, header: Header, limits: Limits, at: At)
    requires TakeDirectory(input, header, limits, at).Got?
    ensures AllInRange(TakeDirectory(input, header, limits, at).value.objects.rows)
  {
    var types := TakeTypes(input, header, limits, at);
    ObjectsAreInRange(input, header, limits, types.value.count.bits, types.at);
  }

  /** No two rows have the same identifier word. */
  predicate DifferentIds(rows: seq<Row<ObjectRow>>) {
    forall i, j :: 0 <= i < j < |rows| ==> rows[i].value.pathIdBits != rows[j].value.pathIdBits
  }

  /** The place is one of the object's bytes, counted from the start of the data. */
  predicate Covers(row: ObjectRow, x: int) {
    row.relativeOffset <= x < row.relativeOffset + row.byteSize
  }

  ghost predicate NothingShared(rows: seq<Row<ObjectRow>>) {
    forall i, j, x {:trigger Covers(rows[i].value, x), Covers(rows[j].value, x)} ::
      0 <= i < j < |rows| ==> !(Covers(rows[i].value, x) && Covers(rows[j].value, x))
  }

  /** The table of the records, judged on the words of the rows. */
  lemma TableByWords(rows: seq<Row<ObjectRow>>)
    ensures ObjectTable.ValidTable(RecordsOf(rows)) <==> DifferentIds(rows) && NothingShared(rows)
  {
    var records := RecordsOf(rows);
    forall i, j | 0 <= i < j < |rows|
      ensures ObjectTable.DistinctIds(records[i], records[j])
              <==> rows[i].value.pathIdBits != rows[j].value.pathIdBits
    {
    }
    forall i, x | 0 <= i < |rows|
      ensures ObjectTable.Holds(records[i], x) <==> Covers(rows[i].value, x)
    {
    }
    if ObjectTable.ValidTable(records) {
      forall i, j, x | 0 <= i < j < |rows| ensures !(Covers(rows[i].value, x) && Covers(rows[j].value, x)) {
        assert ObjectTable.DisjointRanges(records[i], records[j]);
        assert !(ObjectTable.Holds(records[i], x) && ObjectTable.Holds(records[j], x));
      }
    }
    if NothingShared(rows) {
      forall i, j | 0 <= i < j < |rows| ensures ObjectTable.DisjointRanges(records[i], records[j]) {
        forall x ensures !(ObjectTable.Holds(records[i], x) && ObjectTable.Holds(records[j], x)) {
          assert !(Covers(rows[i].value, x) && Covers(rows[j].value, x));
        }
      }
    }
  }

  /** The object table of any directory that reads, in whatever order the sorts leave its records, is accepted
      exactly when all its identifiers differ and no byte belongs to two of its objects. */
  method ValidateDirectory(input: Input, header: Header, limits: Limits, ghost at: At, view: View,
                           byId: seq<ObjectTable.Record>, byRange: seq<ObjectTable.Record>) returns (ok: bool)
    requires TakeDirectory(input, header, limits, at).Got? && view == TakeDirectory(input, header, limits, at).value
    requires ObjectTable.Permutes(byId, RecordsOf(view.objects.rows)) && ObjectTable.IdsAscend(byId)
    requires ObjectTable.Permutes(byRange, RecordsOf(view.objects.rows)) && ObjectTable.RangesAscend(byRange)
    ensures ok <==> ObjectTable.ValidTable(RecordsOf(view.objects.rows))
    ensures ok <==> DifferentIds(view.objects.rows) && NothingShared(view.objects.rows)
  {
    TableByWords(view.objects.rows);
    DirectoryRecordsAreInRange(input, header, limits, at);
    ok := ObjectTable.ValidateObjectTable(RecordsOf(view.objects.rows), byId, byRange);
  }
}
