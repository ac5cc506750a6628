/** The metadata behind the object directory: scripts, externals, reference types and the user string
    (src/io/serialized_file_metadata_tail.c). */
module MetadataTail {
  import opened Bytes
  import opened MetadataReader

  const IDENTIFIER_SIZE: nat := 8
  const GUID_SIZE: nat := 16

  datatype Limits = Limits(maxScripts: nat, maxExternals: nat, maxReferences: nat, tree: TreeLimits, maxTerminated: u64)

  datatype ScriptRow = ScriptRow(fileIndex: Word, alignment: Span, identifier: Span, identifierBits: u64)

  datatype ExternalRow = ExternalRow(leading: Span, guid: Span, guidWords: seq<u32>, kind: Word, path: Span)

  datatype ReferenceNames = ReferenceNames(tree: Tree, className: Span, nameSpace: Span, assembly: Span)

  datatype ReferenceRow = ReferenceRow(prefix: TypePrefix, names: Option<ReferenceNames>)

  // ----- The rows as functions -----

  function TakeScript(input: Input, at: At): (r: Reply<ScriptRow>)
    ensures r.Got? ==> at.position <= r.at.position && r.at.rows == at.rows
  {
    match TakeWord(input, at)
    case Refused(reason) => Refused(reason)
    case Got(fileIndex, at1) =>
      match Take(input, at1, PaddingAt(at1.position))
      case Refused(reason) => Refused(reason)
      case Got(alignment, at2) =>
        match Take(input, at2, IDENTIFIER_SIZE)
        case Refused(reason) => Refused(reason)
        case Got(identifier, next) =>
          Got(ScriptRow(fileIndex, alignment, identifier, Decode64(Content(input, identifier), input.bigEndian)), next)
  }

  function GuidWords(input: Input, guid: Span): (r: seq<u32>)
    requires guid.size == GUID_SIZE && guid.offset + guid.size <= |input.bytes|
    ensures |r| == 4
  {
    var b := Content(input, guid);
    [Decode32(b[..4], input.bigEndian), Decode32(b[4..8], input.bigEndian), Decode32(b[8..12], input.bigEndian),
     Decode32(b[12..16], input.bigEndian)]
  }

  function TakeExternal(input: Input, limits: Limits, at: At): (r: Reply<ExternalRow>)
    ensures r.Got? ==> at.position <= r.at.position && r.at.rows == at.rows
  {
    match TakeString(input, limits.maxTerminated, at.position, at)
    case Refused(reason) => Refused(reason)
    case Got(leading, at1) =>
      match Take(input, at1, GUID_SIZE)
      case Refused(reason) => Refused(reason)
      case Got(guid, at2) =>
        match TakeWord(input, at2)
        case Refused(reason) => Refused(reason)
        case Got(kind, at3) =>
          match TakeString(input, limits.maxTerminated, at3.position, at3)
          case Refused(reason) => Refused(reason)
          case Got(path, next) => Got(ExternalRow(leading, guid, GuidWords(input, guid), kind, path), next)
  }

  function TakeNames(input: Input, limits: Limits, at: At): (r: Reply<ReferenceNames>)
    ensures r.Got? ==> at.position <= r.at.position && r.at.rows == at.rows
  {
    match TakeTree(input, limits.tree, at)
    case Refused(reason) => Refused(reason)
    case Got(tree, at1) =>
      match TakeString(input, limits.maxTerminated, at1.position, at1)
      case Refused(reason) => Refused(reason)
      case Got(className, at2) =>
        match TakeString(input, limits.maxTerminated, at2.position, at2)
        case Refused(reason) => Refused(reason)
        case Got(nameSpace, at3) =>
          match TakeString(input, limits.maxTerminated, at3.position, at3)
          case Refused(reason) => Refused(reason)
          case Got(assembly, next) => Got(ReferenceNames(tree, className, nameSpace, assembly), next)
  }

  function TakeReference(input: Input, limits: Limits, treeEnabled: bool, at: At): (r: Reply<ReferenceRow>)
    ensures r.Got? ==> at.position <= r.at.position && r.at.rows == at.rows
  {
    match TakeTypePrefix(input, at)
    case Refused(reason) => Refused(reason)
    case Got(prefix, at1) =>
      if !treeEnabled then Got(ReferenceRow(prefix, None), at1)
      else
        match TakeNames(input, limits, at1)
        case Refused(reason) => Refused(reason)
        case Got(names, next) => Got(ReferenceRow(prefix, Some(names)), next)
  }

  function ScriptStep(input: Input): Step<ScriptRow> {
    at => TakeScript(input, at)
  }

  function ExternalStep(input: Input, limits: Limits): Step<ExternalRow> {
    at => TakeExternal(input, limits, at)
  }

  function ReferenceStep(input: Input, limits: Limits, treeEnabled: bool): Step<ReferenceRow> {
    at => TakeReference(input, limits, treeEnabled, at)
  }

  lemma ScriptsAdvance(input: Input)
    ensures Advances(ScriptStep(input))
  {
  }

  lemma ExternalsAdvance(input: Input, limits: Limits)
    ensures Advances(ExternalStep(input, limits))
  {
  }

  lemma ReferencesAdvance(input: Input, limits: Limits, treeEnabled: bool)
    ensures Advances(ReferenceStep(input, limits, treeEnabled))
  {
  }

  // ----- The tail as a function -----

  datatype Tail = Tail(scripts: Table<ScriptRow>, externals: Table<ExternalRow>, references: Table<ReferenceRow>,
                       user: Span)

  function TakeScripts(input: Input, limits: Limits, at: At): Reply<Table<ScriptRow>> {
    TakeTable(input, ScriptStep(input), limits.maxScripts, at)
  }

  function TakeExternals(input: Input, limits: Limits, at: At): Reply<Table<ExternalRow>> {
    TakeTable(input, ExternalStep(input, limits), limits.maxExternals, at)
  }

  function TakeReferences(input: Input, limits: Limits, treeEnabled: bool, at: At): Reply<Table<ReferenceRow>> {
    TakeTable(input, ReferenceStep(input, limits, treeEnabled), limits.maxReferences, at)
  }

  /** The user string, which must end the metadata. */
  function TakeUser(input: Input, limits: Limits, at: At): (r: Reply<Span>)
    ensures r.Got? ==> at.position <= r.at.position && r.at.rows == at.rows && r.at.position == input.metadataEnd
    ensures r.Got? ==> r.value == Span(at.position, r.at.position - at.position)
  {
    match TakeString(input, limits.maxTerminated, at.position, at)
    case Refused(reason) => Refused(reason)
    case Got(user, next) => if next.position != input.metadataEnd then Refused(NotExhausted) else Got(user, next)
  }

  function TakeTail(input: Input, limits: Limits, treeEnabled: bool, at: At): Reply<Tail> {
    match TakeScripts(input, limits, at)
    case Refused(reason) => Refused(reason)
    case Got(scripts, at1) =>
      match TakeExternals(input, limits, at1)
      case Refused(reason) => Refused(reason)
      case Got(externals, at2) =>
        match TakeReferences(input, limits, treeEnabled, at2)
        case Refused(reason) => Refused(reason)
        case Got(references, at3) =>
          match TakeUser(input, limits, at3)
          case Refused(reason) => Refused(reason)
          case Got(user, next) => Got(Tail(scripts, externals, references, user), next)
  }

  function TailFields(tail: Tail): seq<Span> {
    TableFields(tail.scripts) + (TableFields(tail.externals) + (TableFields(tail.references) + [tail.user]))
  }

  /** The three tables and the user string cover the metadata from the start of the tail to its very end, and
      the weight of the scan is its bytes plus its rows. */
  lemma TailTiles(input: Input, limits: Limits, treeEnabled: bool, at: At)
    requires TakeTail(input, limits, treeEnabled, at).Got?
    ensures var r := TakeTail(input, limits, treeEnabled, at);
            && r.at.position == input.metadataEnd && at.position <= r.at.position
            && Tiles(TailFields(r.value), at.position, input.metadataEnd)
            && Weight(r.at) - Weight(at)
               == (input.metadataEnd - at.position) + |r.value.scripts.rows| + |r.value.externals.rows| +
                 |r.value.references.rows|
  {
    var scripts := TakeScripts(input, limits, at);
    ScriptsAdvance(input);
    TableTiles(input, ScriptStep(input), limits.maxScripts, at);
    var externals := TakeExternals(input, limits, scripts.at);
    ExternalsAdvance(input, limits);
    TableTiles(input, ExternalStep(input, limits), limits.maxExternals, scripts.at);
    var references := TakeReferences(input, limits, treeEnabled, externals.at);
    ReferencesAdvance(input, limits, treeEnabled);
    TableTiles(input, ReferenceStep(input, limits, treeEnabled), limits.maxReferences, externals.at);
    var user := TakeUser(input, limits, references.at);
    FieldsTile(scripts, externals, references, user, at);
  }

  lemma FieldsTile(scripts: Reply<Table<ScriptRow>>, externals: Reply<Table<ExternalRow>>,
                   references: Reply<Table<ReferenceRow>>, user: Reply<Span>, at: At)
    requires scripts.Got? && externals.Got? && references.Got? && user.Got?
      && references.at.position <= user.at.position
    requires Tiles(TableFields(scripts.value), at.position, scripts.at.position)
    requires Tiles(TableFields(externals.value), scripts.at.position, externals.at.position)
    requires Tiles(TableFields(references.value), externals.at.position, references.at.position)
    requires user.value == Span(references.at.position, user.at.position - references.at.position)
    ensures Tiles(TailFields(Tail(scripts.value, externals.value, references.value, user.value)), at.position,
                  user.at.position)
  {
    var a, b, c, d := at.position, scripts.at.position, externals.at.position, references.at.position;
    assert [user.value][1..] == [];
    assert Tiles([user.value], d, user.at.position);
    TilesJoin(TableFields(references.value), [user.value], c, d, user.at.position);
    TilesJoin(TableFields(externals.value), TableFields(references.value) + [user.value], b, c, user.at.position);
    TilesJoin(TableFields(scripts.value), TableFields(externals.value) + (TableFields(references.value) + [user.value]),
              a, b, user.at.position);
  }

  /** How the parts of a tail weigh on the whole. */
  lemma PartsOfTail(input: Input, limits: Limits, treeEnabled: bool, at: At)
    ensures var scripts := TakeScripts(input, limits, at);
            scripts.Got? ==>
              && |scripts.value.rows| == scripts.value.count.bits
              && var externals := TakeExternals(input, limits, scripts.at);
                 externals.Got? ==>
                   && |externals.value.rows| == externals.value.count.bits && Weight(scripts.at) <= Weight(externals.at)
                   && var references := TakeReferences(input, limits, treeEnabled, externals.at);
                      references.Got? ==>
                        |references.value.rows| == references.value.count.bits
                          && Weight(externals.at) <= Weight(references.at)
  {
    var scripts := TakeScripts(input, limits, at);
    if scripts.Got? {
      ScriptsAdvance(input);
      TableTiles(input, ScriptStep(input), limits.maxScripts, at);
      var externals := TakeExternals(input, limits, scripts.at);
      if externals.Got? {
        ExternalsAdvance(input, limits);
        TableTiles(input, ExternalStep(input, limits), limits.maxExternals, scripts.at);
        var references := TakeReferences(input, limits, treeEnabled, externals.at);
        if references.Got? {
          ReferencesAdvance(input, limits, treeEnabled);
          TableTiles(input, ReferenceStep(input, limits, treeEnabled), limits.maxReferences, externals.at);
        }
      }
    }
  }

  /** The count word of a table weighs no more than the table. */
  lemma TableOutweighs<R(!new)>(input: Input, step: Step<R>, maximum: nat, at: At)
    requires Advances(step)
    ensures var r := TakeTable(input, step, maximum, at); r.Got? ==> Weight(TakeCount(input, at).at) <= Weight(r.at)
  {
    if TakeTable(input, step, maximum, at).Got? {
      TableTiles(input, step, maximum, at);
    }
  }
}
