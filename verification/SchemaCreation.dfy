/** `create_schema` of src/io/serialized_file_schema.c: row selection, admission, storage planning
    and the compilation itself, charged to one meter. */
module SchemaCreation {
  import RetainedStorage
  import opened Bytes
  import opened SchemaTree
  import opened SchemaNames
  import opened SchemaCompiler
  import opened SchemaWire

  datatype Limits = Limits(maxNodes: nat, maxLocalStringBytes: nat, maxRetainedBytes: nat, maxScratchBytes: nat,
                           maxDepth: nat, maxWork: nat)

  /** The C sizes and alignments of the retained and scratch records. */
  datatype Sizes = Sizes(storage: nat, node: nat, nodeAlignment: nat, request: nat, requestAlignment: nat) {
    predicate Valid() {
      storage <= SIZE_MAX && 1 <= nodeAlignment && 1 <= requestAlignment
    }
  }

  datatype Span = Span(offset: nat, size: nat)

  /** What the parent's row says about its tree, and the bytes known to be mapped. */
  datatype Row = Row(engineSupported: bool, present: bool, hasTree: bool, nodeCount: u32, stringByteCount: u32,
                     nodesSource: Span, stringsSource: Span)

  predicate Backed(bytes: seq<byte>, span: Span) {
    span.offset <= |bytes| && span.size <= |bytes| - span.offset
  }

  /** The total once an array is appended, unless size_t overflows. */
  function Extended(total: nat, alignment: nat, count: nat, width: nat): (r: Option<nat>)
    requires alignment > 0
    ensures r.Some? ==> total + count * width <= r.value <= SIZE_MAX
  {
    match RetainedStorage.AppendArray(total, alignment, count, width)
    case None => None
    case Some((_, next)) => Some(next)
  }

  function RetainedBytes(row: Row, sizes: Sizes): Option<nat>
    requires sizes.Valid()
  {
    Extended(sizes.storage, sizes.nodeAlignment, row.nodeCount, sizes.node)
  }

  /** Both scratch halves. */
  function ScratchBytes(row: Row, sizes: Sizes): Option<nat>
    requires sizes.Valid()
  {
    match Extended(0, sizes.requestAlignment, NAMES_PER_NODE * row.nodeCount, sizes.request)
    case None => None
    case Some(half) => if half > SIZE_MAX / 2 then None else Some(2 * half)
  }

  predicate TreeAdmitted(bytes: seq<byte>, row: Row, limits: Limits) {
    && row.engineSupported && row.present && row.hasTree
    && 0 < row.nodeCount <= limits.maxNodes && row.stringByteCount <= limits.maxLocalStringBytes
    && row.nodesSource.size == NODE_BYTES * row.nodeCount && row.stringsSource.size == row.stringByteCount
    && Backed(bytes, row.nodesSource) && Backed(bytes, row.stringsSource)
    && row.stringsSource.offset == row.nodesSource.offset + row.nodesSource.size
  }

  predicate StorageAdmitted(row: Row, limits: Limits, sizes: Sizes)
    requires sizes.Valid()
  {
    && RetainedBytes(row, sizes).Some? && RetainedBytes(row, sizes).value <= limits.maxRetainedBytes
    && ScratchBytes(row, sizes).Some? && ScratchBytes(row, sizes).value <= limits.maxScratchBytes
  }

  function Cut(bytes: seq<byte>, span: Span): seq<byte>
    requires Backed(bytes, span)
  {
    bytes[span.offset..span.offset + span.size]
  }

  function SourceOf(bytes: seq<byte>, common: seq<byte>, row: Row, bigEndian: bool): (r: Source)
    requires Backed(bytes, row.nodesSource) && Backed(bytes, row.stringsSource)
    requires row.nodesSource.size == NODE_BYTES * row.nodeCount
    ensures r.Valid()
  {
    Source(row.nodeCount, Cut(bytes, row.nodesSource), row.nodesSource.offset,
           Cut(bytes, row.stringsSource), row.stringsSource.offset, common, bigEndian)
  }

  /** The published cost R + T + 52 N + S + C + 2051. */
  function Cost(row: Row, common: seq<byte>, sizes: Sizes): nat
    requires sizes.Valid() && RetainedBytes(row, sizes).Some? && ScratchBytes(row, sizes).Some?
  {
    RetainedBytes(row, sizes).value + ScratchBytes(row, sizes).value
    + 52 * row.nodeCount + row.stringByteCount + |common| + 2051
  }

  /** Everything but work: the inputs for which a schema exists at all. */
  predicate Creatable(bytes: seq<byte>, common: seq<byte>, row: Row, bigEndian: bool, limits: Limits, sizes: Sizes)
    requires sizes.Valid()
  {
    && TreeAdmitted(bytes, row, limits) && StorageAdmitted(row, limits, sizes)
    && Compilable(SourceOf(bytes, common, row, bigEndian), limits.maxDepth)
  }

  /** The bytes of a tree as they lie in the file. */
  function ImageAt(bytes: seq<byte>, common: seq<byte>, row: Row, bigEndian: bool): Image
    requires Backed(bytes, row.nodesSource) && Backed(bytes, row.stringsSource)
  {
    var n, s := row.nodesSource, row.stringsSource;
    Image(bytes[n.offset..n.offset + n.size], n.offset, bytes[s.offset..s.offset + s.size], s.offset, common, bigEndian)
  }

  /** Everything but work, in terms of the bytes: the tree is admitted, its storage is, and its records read. */
  lemma CreatableWhenReadable(bytes: seq<byte>, common: seq<byte>, row: Row, bigEndian: bool, limits: Limits,
                              sizes: Sizes)
    requires sizes.Valid()
    ensures Creatable(bytes, common, row, bigEndian, limits, sizes) <==>
              && TreeAdmitted(bytes, row, limits) && StorageAdmitted(row, limits, sizes)
              && Readable(ImageAt(bytes, common, row, bigEndian), row.nodeCount, limits.maxDepth)
  {
    if TreeAdmitted(bytes, row, limits) {
      ReadableIsCompilable(SourceOf(bytes, common, row, bigEndian), limits.maxDepth);
    }
  }

  /** The two layouts in numbers: the nodes behind the aligned header, and two halves of two requests a node. */
  lemma StorageInNumbers(row: Row, sizes: Sizes, offset: nat)
    requires sizes.Valid() && sizes.storage <= offset < sizes.storage + sizes.nodeAlignment
    requires offset % sizes.nodeAlignment == 0
    ensures RetainedBytes(row, sizes) ==
      if offset + row.nodeCount * sizes.node <= 0xFFFF_FFFF_FFFF_FFFF then Some(offset + row.nodeCount * sizes.node)
      else None
    ensures ScratchBytes(row, sizes) ==
      if 2 * row.nodeCount * sizes.request <= 0x7FFF_FFFF_FFFF_FFFF then Some(4 * row.nodeCount * sizes.request)
      else None
  {
    RetainedStorage.ArrayIsAppended(sizes.storage, sizes.nodeAlignment, row.nodeCount, sizes.node, offset);
    RetainedStorage.ArrayIsAppended(0, sizes.requestAlignment, 2 * row.nodeCount, sizes.request, 0);
    assert 2 * (2 * row.nodeCount * sizes.request) == 4 * row.nodeCount * sizes.request;
  }

  datatype Creation = Creation(failure: Diagnostic, workUsed: nat, tree: seq<SchemaNode>, maximumDepth: nat)

  function Refused(status: Status): Diagnostic {
    Diagnostic(status, NoField, ABSENT, NoSource, ABSENT)
  }

  /** `select_row` and `admit_tree`: the first refusal, if any. */
  function Admission(bytes: seq<byte>, row: Row, limits: Limits): (r: Status)
    ensures r == Ok <==> TreeAdmitted(bytes, row, limits)
  {
    if !row.engineSupported then UnsupportedEngine
    else if !row.present then InvalidArgument
    else if !row.hasTree then NoEmbeddedTree
    else if row.nodeCount > limits.maxNodes then LimitExceeded(NodesLimit)
    else if row.stringByteCount > limits.maxLocalStringBytes then LimitExceeded(LocalStringsLimit)
    else if row.nodeCount == 0 || row.nodesSource.size != NODE_BYTES * row.nodeCount
            || row.stringsSource.size != row.stringByteCount
            || !Backed(bytes, row.nodesSource) || !Backed(bytes, row.stringsSource)
            || row.stringsSource.offset != row.nodesSource.offset + row.nodesSource.size then SourceMismatch
    else Ok
  }

  /** `plan_storage`: the first refusal, if any. */
  function StoragePlan(row: Row, limits: Limits, sizes: Sizes): (r: Status)
    requires sizes.Valid()
    ensures r == Ok <==> StorageAdmitted(row, limits, sizes)
  {
    var retained, scratch := RetainedBytes(row, sizes), ScratchBytes(row, sizes);
    if retained.None? || retained.value > limits.maxRetainedBytes then LimitExceeded(RetainedLimit)
    else if scratch.None? || scratch.value > limits.maxScratchBytes then LimitExceeded(ScratchLimit)
    else Ok
  }

  /** Zeroed storage, then the compilation. */
  method CompileInFreshStorage(compile: SchemaCompile) returns (r: Creation)
    requires compile.source.Valid() && compile.workUsed <= compile.maxWork
    requires compile.failure == NO_FAILURE && compile.maximumDepth == 0
    modifies compile
    ensures r.workUsed <= compile.maxWork
    ensures r.failure.status == Ok <==>
              Compilable(compile.source, compile.maxDepth)
                && old(compile.workUsed) + CompileCost(compile.source) <= compile.maxWork
    ensures r.failure.status == Ok ==>
              && r.workUsed == old(compile.workUsed) + CompileCost(compile.source)
              && r.tree == Tree(compile.source) && r.maximumDepth == MaxLevel(compile.source.Levels())
    ensures r.failure.status == Ok ==> SchemaSpelled(ImageOf(compile.source), r.tree, r.maximumDepth)
    ensures r.failure.status != Ok ==> r.tree == [] && CompileFailure(compile.source, compile.maxDepth, r.failure)
  {
    var empty := SchemaNode(NodeRecord(0, 0, 0, 0, 0, 0, 0, 0, 0, 0, []), Links(0, 0, 0, 0, 0), Unresolved, Unresolved);
    var count := compile.source.count;
    compile.nodes := new SchemaNode[count](_ => empty);
    compile.requests := new NameRequest[NAMES_PER_NODE * count](_ => NameRequest(0, 0));
    compile.sorted := new NameRequest[NAMES_PER_NODE * count](_ => NameRequest(0, 0));
    var ok := compile.Compile();
    r := if ok then Creation(NO_FAILURE, compile.workUsed, compile.nodes[..], compile.maximumDepth)
         else Creation(compile.failure, compile.workUsed, [], 0);
    if ok {
      CompiledTreeIsSpelled(compile.source);
      TreeIsAsDeep(compile.source);
    }
  }

  /** Work apart, the first stage that objects gives the status. */
  predicate Explained(bytes: seq<byte>, common: seq<byte>, row: Row, bigEndian: bool, limits: Limits, sizes: Sizes,
                      allocates: bool, failure: Diagnostic)
    requires sizes.Valid()
  {
    failure.status == LimitExceeded(WorkLimit)
    || if Admission(bytes, row, limits) != Ok then failure.status == Admission(bytes, row, limits)
       else if StoragePlan(row, limits, sizes) != Ok then failure.status == StoragePlan(row, limits, sizes)
       else if !allocates then failure.status == AllocationFailed
       else CompileFailure(SourceOf(bytes, common, row, bigEndian), limits.maxDepth, failure)
  }

  method CreateSchema(bytes: seq<byte>, common: seq<byte>, row: Row, bigEndian: bool, limits: Limits, sizes: Sizes,
                      storageAllocates: bool, scratchAllocates: bool)
    returns (r: Creation)
    requires sizes.Valid()
    ensures r.workUsed <= limits.maxWork
    ensures r.failure.status == Ok <==>
              && Creatable(bytes, common, row, bigEndian, limits, sizes) && storageAllocates && scratchAllocates
              && Cost(row, common, sizes) <= limits.maxWork
    ensures r.failure.status == Ok ==>
              && r.workUsed == Cost(row, common, sizes)
              && r.tree == Tree(SourceOf(bytes, common, row, bigEndian))
              && r.maximumDepth == MaxLevel(SourceOf(bytes, common, row, bigEndian).Levels())
    ensures r.failure.status == Ok ==>
              SchemaSpelled(ImageAt(bytes, common, row, bigEndian), r.tree, r.maximumDepth)
    ensures r.failure.status != Ok ==> r.tree == []
    ensures r.failure.status != Ok ==>
              Explained(bytes, common, row, bigEndian, limits, sizes, storageAllocates && scratchAllocates, r.failure)
  {
    var admitted := Admission(bytes, row, limits);
    var source := if admitted == Ok then SourceOf(bytes, common, row, bigEndian)
                  else Source(0, [], 0, [], 0, common, bigEndian);
    var compile := new SchemaCompile(source, limits.maxWork, limits.maxDepth);
    var ok := compile.ChargeOwner(1);
    if !ok {
      return Creation(compile.failure, compile.workUsed, [], 0);
    }
    if admitted != Ok {
      return Creation(Refused(admitted), compile.workUsed, [], 0);
    }
    ok := compile.ChargeOwner(1);
    if !ok {
      return Creation(compile.failure, compile.workUsed, [], 0);
    }
    var planned := StoragePlan(row, limits, sizes);
    if planned != Ok {
      return Creation(Refused(planned), compile.workUsed, [], 0);
    }
    var retained, scratch := RetainedBytes(row, sizes), ScratchBytes(row, sizes);
    ok := compile.ChargeOwner(retained.value);
    if !ok {
      return Creation(compile.failure, compile.workUsed, [], 0);
    }
    if !storageAllocates {
      return Creation(Refused(AllocationFailed), compile.workUsed, [], 0);
    }
    ok := compile.ChargeOwner(scratch.value);
    if !ok {
      return Creation(compile.failure, compile.workUsed, [], 0);
    }
    if !scratchAllocates {
      return Creation(Refused(AllocationFailed), compile.workUsed, [], 0);
    }
    CompileCostIsLinear(source);
    assert ImageOf(source) == ImageAt(bytes, common, row, bigEndian);
    r := CompileInFreshStorage(compile);
  }
}
