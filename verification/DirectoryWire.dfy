/** The object directory against its bytes: the scanner succeeds exactly where the bytes spell a directory within the
    limits, and then with that directory (src/io/serialized_file_directory.c). */
module DirectoryWire {
  import opened Bytes
  import opened WireWords
  import opened MetadataReader
  import opened MetadataWire
  import opened Directory

  // ----- What the bytes say -----

  /** The part of a type row behind its prefix: a tree, and as many dependency words as their count says. */
  predicate TrailerReads(input: Input, limits: Limits, at: At, t: Trailer, next: At) {
    var m := BehindTree(at, t.tree);
    && TreeReads(input, limits.tree, at, t.tree, m)
    && DependenciesRead(input, limits, m, t.dependencyCount, t.dependencies, next)
  }

  predicate DependenciesRead(input: Input, limits: Limits, at: At, count: Word, words: Span, next: At) {
    var c: nat := count.bits;
    var behind := at.position + 4;
    && WordReads(input, at, count, at.(position := behind)) && c <= 0x7FFF_FFFF
    && at.extra + c <= limits.maxDependencies
    && words == Span(behind, 4 * c) && Within(input, behind, behind + 4 * c)
    && next == at.(position := behind + 4 * c, extra := at.extra + c)
  }

  predicate TypeReads(input: Input, header: Header, limits: Limits, at: At, row: TypeRow, next: At) {
    var m := at.(position := at.position + PrefixSize(row.prefix));
    && PrefixReads(input, at, row.prefix, m)
    && if header.treeEnabled then row.trailer.Some? && TrailerReads(input, limits, m, row.trailer.value, next)
       else row.trailer.None? && next == m
  }

  /** The 24 bytes of an object row. */
  predicate ObjectSpelled(input: Input, offset: nat, pathId: u64, relative: u64, size: u32, ordinal: u32) {
    && offset + 24 <= |input.bytes|
    && input.bytes[offset..offset + 24] == Spelled(pathId, 8, input.bigEndian) + Spelled(relative, 8, input.bigEndian)
                                           + Spelled(size, 4, input.bigEndian) + Spelled(ordinal, 4, input.bigEndian)
  }

  /** The byte range is in the data region, and the type exists. */
  predicate ObjectFits(header: Header, typeCount: nat, relative: u64, size: u32, ordinal: u32) {
    header.dataOffset + relative + size <= header.fileSize && ordinal < typeCount
  }

  predicate ObjectReads(input: Input, header: Header, typeCount: nat, at: At, row: ObjectRow, next: At) {
    && Within(input, at.position, at.position + 24)
    && ObjectSpelled(input, at.position, row.pathIdBits, row.relativeOffset, row.byteSize, row.typeOrdinal)
    && ObjectFits(header, typeCount, row.relativeOffset, row.byteSize, row.typeOrdinal)
    && row.payload == Span(header.dataOffset + row.relativeOffset, row.byteSize)
    && next == at.(position := at.position + 24)
  }

  /** An empty table has no padding. */
  predicate PaddingFits(position: nat, count: nat, size: nat) {
    if count == 0 then size == 0 else AlignmentFits(position, size)
  }

  ghost predicate ObjectsRead(input: Input, header: Header, limits: Limits, typeCount: nat, at: At, objects: Objects,
                              next: At)
  {
    ObjectTableReads(input, ObjectRelation(input, header, typeCount), limits.maxObjects, at, objects, next)
  }

  ghost predicate ObjectTableReads(input: Input, relation: (At, ObjectRow, At) -> bool, maximum: nat, at: At,
                                   objects: Objects, next: At)
  {
    var behind := at.(position := at.position + 4);
    var padded := behind.(position := behind.position + objects.padding.size);
    var spelled :=
      && WordReads(input, at, objects.count, behind) && objects.count.bits <= 0x7FFF_FFFF
      && |objects.rows| == objects.count.bits <= maximum
      && objects.padding.offset == behind.position && Within(input, behind.position, padded.position)
      && PaddingFits(behind.position, |objects.rows|, objects.padding.size)
      && RowsRead(relation, padded, objects.rows, next);
    spelled
  }

  /** The type table, then the object table behind its padding. */
  ghost predicate DirectoryReads(input: Input, header: Header, limits: Limits, at: At, view: View, next: At) {
    exists m: At {:trigger TypesRead(input, header, limits, at, view.types, m)} ::
      && TypesRead(input, header, limits, at, view.types, m)
      && ObjectsRead(input, header, limits, |view.types.rows|, m, view.objects, next)
  }

  ghost predicate TypesRead(input: Input, header: Header, limits: Limits, at: At, types: Types, next: At) {
    TableReads(input, TypeRelation(input, header, limits), limits.maxTypes, at, Table(types.count, types.rows), next)
  }

  function TypeRelation(input: Input, header: Header, limits: Limits): (At, TypeRow, At) -> bool {
    (at, row, next) => TypeReads(input, header, limits, at, row, next)
  }

  function ObjectRelation(input: Input, header: Header, typeCount: nat): (At, ObjectRow, At) -> bool {
    (at, row, next) => ObjectReads(input, header, typeCount, at, row, next)
  }

  // ----- The scan finds exactly that -----

  lemma DependenciesReadExactly(input: Input, limits: Limits, tree: Tree, at: At, t: Trailer, next: At)
    ensures TakeDependencies(input, limits, tree, at) == Got(t, next)
            <==> t.tree == tree && DependenciesRead(input, limits, at, t.dependencyCount, t.dependencies, next)
  {
    var behind := at.(position := at.position + 4);
    CountReadsExactly(input, at, t.dependencyCount, behind);
    TakesWithin(input, behind.(extra := at.extra + t.dependencyCount.bits), 4 * t.dependencyCount.bits);
  }

  lemma TrailerReadsExactly(input: Input, limits: Limits, at: At, t: Trailer, next: At)
    ensures TakeTrailer(input, limits, at) == Got(t, next) <==> TrailerReads(input, limits, at, t, next)
  {
    var m := BehindTree(at, t.tree);
    TreeReadsExactly(input, limits.tree, at, t.tree, m);
    DependenciesReadExactly(input, limits, t.tree, m, t, next);
    if TakeTrailer(input, limits, at) == Got(t, next) {
      TreeReadsExactly(input, limits.tree, at, t.tree, TakeTree(input, limits.tree, at).at);
    }
  }

  lemma TypeReadsExactly(input: Input, header: Header, limits: Limits, at: At, row: TypeRow, next: At)
    ensures TakeTypeRow(input, header, limits, at) == Got(row, next)
            <==> TypeReads(input, header, limits, at, row, next)
  {
    var m := at.(position := at.position + PrefixSize(row.prefix));
    PrefixReadsExactly(input, at, row.prefix, m);
    if header.treeEnabled && row.trailer.Some? {
      TrailerReadsExactly(input, limits, m, row.trailer.value, next);
    }
    if TakeTypeRow(input, header, limits, at) == Got(row, next) {
      PrefixIsSpelled(input, at);
    }
  }

  /** The four words of an object row. */
  lemma ObjectWords(b: seq<byte>, bigEndian: bool, pathId: u64, relative: u64, size: u32, ordinal: u32)
    requires |b| == 24
    ensures b == Spelled(pathId, 8, bigEndian) + Spelled(relative, 8, bigEndian) + Spelled(size, 4, bigEndian)
                 + Spelled(ordinal, 4, bigEndian)
            <==> && Decode64(b[..8], bigEndian) == pathId && Decode64(b[8..16], bigEndian) == relative
                 && Decode32(b[16..20], bigEndian) == size && Decode32(b[20..24], bigEndian) == ordinal
  {
    LongIsSpelled(b[..8], bigEndian, pathId);
    LongIsSpelled(b[8..16], bigEndian, relative);
    WordIsSpelledIn(b[16..20], bigEndian, size);
    WordIsSpelledIn(b[20..24], bigEndian, ordinal);
    FourParts(b, Spelled(pathId, 8, bigEndian), Spelled(relative, 8, bigEndian), Spelled(size, 4, bigEndian),
              Spelled(ordinal, 4, bigEndian));
  }

  lemma FourParts(b: seq<byte>, p: seq<byte>, q: seq<byte>, r: seq<byte>, s: seq<byte>)
    requires |b| == 24 && |p| == 8 && |q| == 8 && |r| == 4 && |s| == 4
    ensures b == p + q + r + s <==> b[..8] == p && b[8..16] == q && b[16..20] == r && b[20..24] == s
  {
    assert b == b[..8] + b[8..16] + b[16..20] + b[20..24];
    if b == p + q + r + s {
      assert (p + q + r + s)[..8] == p && (p + q + r + s)[8..16] == q;
      assert (p + q + r + s)[16..20] == r && (p + q + r + s)[20..24] == s;
    }
  }

  /** A row whose words are spelled is read when they fit, and otherwise refused: for its range before its type. */
  lemma ObjectRefusedExactly(input: Input, header: Header, typeCount: nat, at: At, pathId: u64, relative: u64,
                             size: u32, ordinal: u32)
    requires Within(input, at.position, at.position + 24)
    requires ObjectSpelled(input, at.position, pathId, relative, size, ordinal)
    ensures var r := TakeObjectRow(input, header, typeCount, at);
            && (r.Got? <==> ObjectFits(header, typeCount, relative, size, ordinal))
            && (r.Refused? ==> r.reason == if header.dataOffset + relative + size > header.fileSize then ObjectRange
                                           else ObjectType)
  {
    TakesWithin(input, at, 24);
    ObjectWords(input.bytes[at.position..at.position + 24], input.bigEndian, pathId, relative, size, ordinal);
  }

  lemma ObjectReadsExactly(input: Input, header: Header, typeCount: nat, at: At, row: ObjectRow, next: At)
    ensures TakeObjectRow(input, header, typeCount, at) == Got(row, next)
            <==> ObjectReads(input, header, typeCount, at, row, next)
  {
    TakesWithin(input, at, 24);
    if Within(input, at.position, at.position + 24) {
      ObjectWords(input.bytes[at.position..at.position + 24], input.bigEndian, row.pathIdBits, row.relativeOffset,
                  row.byteSize, row.typeOrdinal);
    }
  }

  lemma TypesReadExactly(input: Input, header: Header, limits: Limits, at: At, types: Types, next: At)
    ensures TakeTypes(input, header, limits, at) == Got(types, next)
            <==> TypesRead(input, header, limits, at, types, next)
  {
    var step, relation := TypeStep(input, header, limits), TypeRelation(input, header, limits);
    TypesAdvance(input, header, limits);
    forall a: At, v: TypeRow, m: At ensures step(a) == Got(v, m) <==> relation(a, v, m) {
      TypeReadsExactly(input, header, limits, a, v, m);
    }
    TableReadsExactly(input, step, relation, limits.maxTypes, at, Table(types.count, types.rows), next);
  }

  lemma ObjectsAreExact(input: Input, header: Header, typeCount: nat)
    ensures Exactly(ObjectStep(input, header, typeCount), ObjectRelation(input, header, typeCount))
  {
    var step, relation := ObjectStep(input, header, typeCount), ObjectRelation(input, header, typeCount);
    forall a: At, v: ObjectRow, m: At ensures step(a) == Got(v, m) <==> relation(a, v, m) {
      ObjectReadsExactly(input, header, typeCount, a, v, m);
    }
  }

  lemma PaddingIsExact(position: nat, count: nat, size: nat)
    ensures PaddingFits(position, count, size) <==> size == Padding(position, count)
  {
    AlignmentIsExact(position, size);
  }

  /** The count, the padding and the rows of an object table, one behind the other. */
  lemma ObjectTableInSteps(input: Input, maximum: nat, step: Step<ObjectRow>, at: At)
    requires TakeObjectTable(input, maximum, step, at).Got?
    ensures var r := TakeObjectTable(input, maximum, step, at);
            var count, padding := r.value.count, r.value.padding;
            var behind := at.(position := at.position + 4);
            var padded := behind.(position := behind.position + padding.size);
            && TakeCount(input, at) == Got(count, behind) && count.bits <= maximum
            && padding.size == Padding(behind.position, count.bits)
            && Take(input, behind, padding.size) == Got(padding, padded)
            && TakeRows(step, count.bits, padded) == Got(r.value.rows, r.at)
  {
  }

  lemma ObjectTableIsSpelled(input: Input, maximum: nat, step: Step<ObjectRow>, relation: (At, ObjectRow, At) -> bool,
                             at: At)
    requires Exactly(step, relation) && Advances(step) && TakeObjectTable(input, maximum, step, at).Got?
    ensures var r := TakeObjectTable(input, maximum, step, at);
            ObjectTableReads(input, relation, maximum, at, r.value, r.at)
  {
    var r := TakeObjectTable(input, maximum, step, at);
    var behind := at.(position := at.position + 4);
    ObjectTableInSteps(input, maximum, step, at);
    CountReadsExactly(input, at, r.value.count, behind);
    TakesWithin(input, behind, r.value.padding.size);
    PaddingIsExact(behind.position, r.value.count.bits, r.value.padding.size);
    RowsAreRead(step, relation, r.value.count.bits, behind.(position := behind.position + r.value.padding.size));
  }

  lemma ObjectsReadExactly(input: Input, header: Header, limits: Limits, typeCount: nat, at: At, objects: Objects,
                           next: At)
    ensures TakeObjects(input, header, limits, typeCount, at) == Got(objects, next)
            <==> ObjectsRead(input, header, limits, typeCount, at, objects, next)
  {
    var step, relation := ObjectStep(input, header, typeCount), ObjectRelation(input, header, typeCount);
    ObjectsAdvance(input, header, typeCount);
    ObjectsAreExact(input, header, typeCount);
    if TakeObjects(input, header, limits, typeCount, at) == Got(objects, next) {
      ObjectTableIsSpelled(input, limits.maxObjects, step, relation, at);
    }
    if ObjectsRead(input, header, limits, typeCount, at, objects, next) {
      SpelledObjectTableReads(input, limits.maxObjects, step, relation, at, objects, next);
    }
  }

  lemma SpelledObjectTableReads(input: Input, maximum: nat, step: Step<ObjectRow>,
                                relation: (At, ObjectRow, At) -> bool, at: At, objects: Objects, next: At)
    requires Exactly(step, relation) && ObjectTableReads(input, relation, maximum, at, objects, next)
    ensures TakeObjectTable(input, maximum, step, at) == Got(objects, next)
  {
    var behind := at.(position := at.position + 4);
    CountReadsExactly(input, at, objects.count, behind);
    TakesWithin(input, behind, objects.padding.size);
    PaddingIsExact(behind.position, objects.count.bits, objects.padding.size);
    ReadRowsAreTaken(step, relation, behind.(position := behind.position + objects.padding.size), objects.rows, next);
  }

  /** The directory function reads exactly what the bytes spell. */
  lemma DirectoryReadsExactly(input: Input, header: Header, limits: Limits, at: At, view: View, next: At)
    ensures TakeDirectory(input, header, limits, at) == Got(view, next)
            <==> DirectoryReads(input, header, limits, at, view, next)
  {
    if TakeDirectory(input, header, limits, at) == Got(view, next) {
      var m := TakeTypes(input, header, limits, at).at;
      TypesReadExactly(input, header, limits, at, view.types, m);
      ObjectsReadExactly(input, header, limits, view.types.count.bits, m, view.objects, next);
    }
    if DirectoryReads(input, header, limits, at, view, next) {
      var m: At :| TypesRead(input, header, limits, at, view.types, m)
                   && ObjectsRead(input, header, limits, |view.types.rows|, m, view.objects, next);
      TypesReadExactly(input, header, limits, at, view.types, m);
      ObjectsReadExactly(input, header, limits, view.types.count.bits, m, view.objects, next);
    }
  }
}
