/** The metadata tail against its bytes: the scanner succeeds exactly where the bytes spell scripts, externals,
    reference types and a user string within the limits, and then with those
    (src/io/serialized_file_metadata_tail.c). */
module TailWire {
  import opened Bytes
  import opened WireWords
  import opened MetadataReader
  import opened MetadataWire
  import opened MetadataTail

  // ----- What the bytes say -----

  /** A file index, padding, and an eight-byte identifier. */
  predicate ScriptReads(input: Input, at: At, row: ScriptRow, next: At) {
    var m1 := at.(position := at.position + 4);
    var m2 := m1.(position := m1.position + row.alignment.size);
    && WordReads(input, at, row.fileIndex, m1)
    && row.alignment.offset == m1.position && AlignmentFits(m1.position, row.alignment.size)
    && Within(input, m1.position, m2.position)
    && IdentifierReads(input, m2, row.identifier, row.identifierBits, next)
  }

  predicate IdentifierReads(input: Input, at: At, identifier: Span, bits: u64, next: At) {
    && identifier == Span(at.position, 8) && Within(input, at.position, at.position + 8)
    && input.bytes[at.position..at.position + 8] == Spelled(bits, 8, input.bigEndian)
    && next == at.(position := at.position + 8)
  }

  /** Sixteen bytes as four words. */
  predicate GuidReads(input: Input, at: At, guid: Span, words: seq<u32>, next: At) {
    && guid == Span(at.position, 16) && Within(input, at.position, at.position + 16) && |words| == 4
    && input.bytes[at.position..at.position + 16]
       == Spelled(words[0], 4, input.bigEndian) + Spelled(words[1], 4, input.bigEndian)
          + Spelled(words[2], 4, input.bigEndian) + Spelled(words[3], 4, input.bigEndian)
    && next == at.(position := at.position + 16)
  }

  /** A string, a GUID, a kind and a path. */
  predicate ExternalReads(input: Input, limits: Limits, at: At, row: ExternalRow, next: At) {
    var m1 := Behind(at, row.leading);
    var m2 := m1.(position := m1.position + 16);
    var m3 := m2.(position := m2.position + 4);
    && StringReads(input, limits.maxTerminated, at, row.leading, m1)
    && GuidReads(input, m1, row.guid, row.guidWords, m2)
    && WordReads(input, m2, row.kind, m3)
    && StringReads(input, limits.maxTerminated, m3, row.path, next)
  }

  function Behind(at: At, text: Span): At {
    at.(position := at.position + text.size, extra := at.extra + text.size)
  }

  /** An embedded tree, then the class, the namespace and the assembly. */
  predicate NamesRead(input: Input, limits: Limits, at: At, names: ReferenceNames, next: At) {
    var m1 := BehindTree(at, names.tree);
    var m2 := Behind(m1, names.className);
    var m3 := Behind(m2, names.nameSpace);
    && TreeReads(input, limits.tree, at, names.tree, m1)
    && StringReads(input, limits.maxTerminated, m1, names.className, m2)
    && StringReads(input, limits.maxTerminated, m2, names.nameSpace, m3)
    && StringReads(input, limits.maxTerminated, m3, names.assembly, next)
  }

  predicate ReferenceReads(input: Input, limits: Limits, treeEnabled: bool, at: At, row: ReferenceRow, next: At) {
    var m := at.(position := at.position + PrefixSize(row.prefix));
    && PrefixReads(input, at, row.prefix, m)
    && if treeEnabled then row.names.Some? && NamesRead(input, limits, m, row.names.value, next)
       else row.names.None? && next == m
  }

  /** Three tables, then the user string, which ends the metadata. */
  ghost predicate TailReads(input: Input, limits: Limits, treeEnabled: bool, at: At, tail: Tail, next: At) {
    exists m1: At, m2: At, m3: At {:trigger PartsRead(input, limits, treeEnabled, at, tail, m1, m2, m3, next)} ::
      PartsRead(input, limits, treeEnabled, at, tail, m1, m2, m3, next)
  }

  ghost predicate PartsRead(input: Input, limits: Limits, treeEnabled: bool, at: At, tail: Tail, m1: At, m2: At,
                            m3: At, next: At)
  {
    && TableReads(input, ScriptRelation(input), limits.maxScripts, at, tail.scripts, m1)
    && TableReads(input, ExternalRelation(input, limits), limits.maxExternals, m1, tail.externals, m2)
    && TableReads(input, ReferenceRelation(input, limits, treeEnabled), limits.maxReferences, m2, tail.references, m3)
    && StringReads(input, limits.maxTerminated, m3, tail.user, next) && next.position == input.metadataEnd
  }

  function ScriptRelation(input: Input): (At, ScriptRow, At) -> bool {
    (at, row, next) => ScriptReads(input, at, row, next)
  }

  function ExternalRelation(input: Input, limits: Limits): (At, ExternalRow, At) -> bool {
    (at, row, next) => ExternalReads(input, limits, at, row, next)
  }

  function ReferenceRelation(input: Input, limits: Limits, treeEnabled: bool): (At, ReferenceRow, At) -> bool {
    (at, row, next) => ReferenceReads(input, limits, treeEnabled, at, row, next)
  }

  // ----- The scan finds exactly that -----

  /** A script read step by step. */
  lemma ScriptInSteps(input: Input, at: At, row: ScriptRow, next: At)
    ensures var m1 := at.(position := at.position + 4);
            var m2 := m1.(position := m1.position + row.alignment.size);
            TakeScript(input, at) == Got(row, next)
            <==> && TakeWord(input, at) == Got(row.fileIndex, m1)
                 && row.alignment.size == PaddingAt(m1.position)
                 && Take(input, m1, row.alignment.size) == Got(row.alignment, m2)
                 && Take(input, m2, 8) == Got(row.identifier, next)
                 && Decode64(Content(input, row.identifier), input.bigEndian) == row.identifierBits
  {
  }

  lemma IdentifierReadsExactly(input: Input, at: At, identifier: Span, bits: u64, next: At)
    ensures Take(input, at, 8) == Got(identifier, next) && Decode64(Content(input, identifier), input.bigEndian) == bits
            <==> IdentifierReads(input, at, identifier, bits, next)
  {
    TakesWithin(input, at, 8);
    if Within(input, at.position, at.position + 8) {
      LongIsSpelled(input.bytes[at.position..at.position + 8], input.bigEndian, bits);
    }
  }

  lemma ScriptReadsExactly(input: Input, at: At, row: ScriptRow, next: At)
    ensures TakeScript(input, at) == Got(row, next) <==> ScriptReads(input, at, row, next)
  {
    var m1 := at.(position := at.position + 4);
    var m2 := m1.(position := m1.position + row.alignment.size);
    ScriptInSteps(input, at, row, next);
    WordReadsExactly(input, at, row.fileIndex, m1);
    AlignmentIsExact(m1.position, row.alignment.size);
    TakesWithin(input, m1, row.alignment.size);
    IdentifierReadsExactly(input, m2, row.identifier, row.identifierBits, next);
  }

  lemma GuidWordsAreSpelled(input: Input, guid: Span, words: seq<u32>)
    requires guid.size == 16 && guid.offset + 16 <= |input.bytes| && |words| == 4
    ensures GuidWords(input, guid) == words
            <==> input.bytes[guid.offset..guid.offset + 16]
                 == Spelled(words[0], 4, input.bigEndian) + Spelled(words[1], 4, input.bigEndian)
                    + Spelled(words[2], 4, input.bigEndian) + Spelled(words[3], 4, input.bigEndian)
  {
    var b := input.bytes[guid.offset..guid.offset + 16];
    WordIsSpelledIn(b[..4], input.bigEndian, words[0]);
    WordIsSpelledIn(b[4..8], input.bigEndian, words[1]);
    WordIsSpelledIn(b[8..12], input.bigEndian, words[2]);
    WordIsSpelledIn(b[12..16], input.bigEndian, words[3]);
    FourWords(b, Spelled(words[0], 4, input.bigEndian), Spelled(words[1], 4, input.bigEndian),
              Spelled(words[2], 4, input.bigEndian), Spelled(words[3], 4, input.bigEndian));
    assert words == [words[0], words[1], words[2], words[3]];
  }

  lemma FourWords(b: seq<byte>, p: seq<byte>, q: seq<byte>, r: seq<byte>, s: seq<byte>)
    requires |b| == 16 && |p| == 4 && |q| == 4 && |r| == 4 && |s| == 4
    ensures b == p + q + r + s <==> b[..4] == p && b[4..8] == q && b[8..12] == r && b[12..16] == s
  {
    assert b == b[..4] + b[4..8] + b[8..12] + b[12..16];
    if b == p + q + r + s {
      assert (p + q + r + s)[..4] == p && (p + q + r + s)[4..8] == q;
      assert (p + q + r + s)[8..12] == r && (p + q + r + s)[12..16] == s;
    }
  }

  /** An external read step by step. */
  lemma ExternalInSteps(input: Input, limits: Limits, at: At, row: ExternalRow, next: At)
    ensures var m1 := Behind(at, row.leading);
            var m2 := m1.(position := m1.position + 16);
            var m3 := m2.(position := m2.position + 4);
            TakeExternal(input, limits, at) == Got(row, next)
            <==> && TakeString(input, limits.maxTerminated, at.position, at) == Got(row.leading, m1)
                 && Take(input, m1, 16) == Got(row.guid, m2) && GuidWords(input, row.guid) == row.guidWords
                 && TakeWord(input, m2) == Got(row.kind, m3)
                 && TakeString(input, limits.maxTerminated, m3.position, m3) == Got(row.path, next)
  {
  }

  lemma GuidReadsExactly(input: Input, at: At, guid: Span, words: seq<u32>, next: At)
    ensures Take(input, at, 16) == Got(guid, next) && GuidWords(input, guid) == words
            <==> GuidReads(input, at, guid, words, next)
  {
    TakesWithin(input, at, 16);
    if Within(input, at.position, at.position + 16) && guid == Span(at.position, 16) && |words| == 4 {
      GuidWordsAreSpelled(input, guid, words);
    }
  }

  lemma ExternalReadsExactly(input: Input, limits: Limits, at: At, row: ExternalRow, next: At)
    ensures TakeExternal(input, limits, at) == Got(row, next) <==> ExternalReads(input, limits, at, row, next)
  {
    var m1 := Behind(at, row.leading);
    var m2 := m1.(position := m1.position + 16);
    var m3 := m2.(position := m2.position + 4);
    ExternalInSteps(input, limits, at, row, next);
    StringReadsExactly(input, limits.maxTerminated, at, row.leading, m1);
    GuidReadsExactly(input, m1, row.guid, row.guidWords, m2);
    WordReadsExactly(input, m2, row.kind, m3);
    StringReadsExactly(input, limits.maxTerminated, m3, row.path, next);
  }

  /** The names read step by step. */
  lemma NamesInSteps(input: Input, limits: Limits, at: At, names: ReferenceNames, next: At)
    ensures var m1 := BehindTree(at, names.tree);
            var m2 := Behind(m1, names.className);
            var m3 := Behind(m2, names.nameSpace);
            TakeNames(input, limits, at) == Got(names, next)
            <==> && TakeTree(input, limits.tree, at) == Got(names.tree, m1)
                 && TakeString(input, limits.maxTerminated, m1.position, m1) == Got(names.className, m2)
                 && TakeString(input, limits.maxTerminated, m2.position, m2) == Got(names.nameSpace, m3)
                 && TakeString(input, limits.maxTerminated, m3.position, m3) == Got(names.assembly, next)
  {
  }

  lemma NamesReadExactly(input: Input, limits: Limits, at: At, names: ReferenceNames, next: At)
    ensures TakeNames(input, limits, at) == Got(names, next) <==> NamesRead(input, limits, at, names, next)
  {
    var m1 := BehindTree(at, names.tree);
    var m2 := Behind(m1, names.className);
    var m3 := Behind(m2, names.nameSpace);
    NamesInSteps(input, limits, at, names, next);
    TreeReadsExactly(input, limits.tree, at, names.tree, m1);
    StringReadsExactly(input, limits.maxTerminated, m1, names.className, m2);
    StringReadsExactly(input, limits.maxTerminated, m2, names.nameSpace, m3);
    StringReadsExactly(input, limits.maxTerminated, m3, names.assembly, next);
  }

  lemma ReferenceReadsExactly(input: Input, limits: Limits, treeEnabled: bool, at: At, row: ReferenceRow, next: At)
    ensures TakeReference(input, limits, treeEnabled, at) == Got(row, next)
            <==> ReferenceReads(input, limits, treeEnabled, at, row, next)
  {
    var m := at.(position := at.position + PrefixSize(row.prefix));
    PrefixReadsExactly(input, at, row.prefix, m);
    if treeEnabled && row.names.Some? {
      NamesReadExactly(input, limits, m, row.names.value, next);
    }
    if TakeReference(input, limits, treeEnabled, at) == Got(row, next) {
      PrefixIsSpelled(input, at);
    }
  }

  lemma ScriptsReadExactly(input: Input, limits: Limits, at: At, table: Table<ScriptRow>, next: At)
    ensures TakeScripts(input, limits, at) == Got(table, next)
            <==> TableReads(input, ScriptRelation(input), limits.maxScripts, at, table, next)
  {
    var step, relation := ScriptStep(input), ScriptRelation(input);
    ScriptsAdvance(input);
    forall a: At, v: ScriptRow, m: At ensures step(a) == Got(v, m) <==> relation(a, v, m) {
      ScriptReadsExactly(input, a, v, m);
    }
    TableReadsExactly(input, step, relation, limits.maxScripts, at, table, next);
  }

  lemma ExternalsReadExactly(input: Input, limits: Limits, at: At, table: Table<ExternalRow>, next: At)
    ensures TakeExternals(input, limits, at) == Got(table, next)
            <==> TableReads(input, ExternalRelation(input, limits), limits.maxExternals, at, table, next)
  {
    var step, relation := ExternalStep(input, limits), ExternalRelation(input, limits);
    ExternalsAdvance(input, limits);
    forall a: At, v: ExternalRow, m: At ensures step(a) == Got(v, m) <==> relation(a, v, m) {
      ExternalReadsExactly(input, limits, a, v, m);
    }
    TableReadsExactly(input, step, relation, limits.maxExternals, at, table, next);
  }

  lemma ReferencesReadExactly(input: Input, limits: Limits, treeEnabled: bool, at: At, table: Table<ReferenceRow>,
                              next: At)
    ensures TakeReferences(input, limits, treeEnabled, at) == Got(table, next)
            <==> TableReads(input, ReferenceRelation(input, limits, treeEnabled), limits.maxReferences, at, table, next)
  {
    var step, relation := ReferenceStep(input, limits, treeEnabled), ReferenceRelation(input, limits, treeEnabled);
    ReferencesAdvance(input, limits, treeEnabled);
    forall a: At, v: ReferenceRow, m: At ensures step(a) == Got(v, m) <==> relation(a, v, m) {
      ReferenceReadsExactly(input, limits, treeEnabled, a, v, m);
    }
    TableReadsExactly(input, step, relation, limits.maxReferences, at, table, next);
  }

  /** The tail function reads exactly what the bytes spell. */
  lemma TailReadsExactly(input: Input, limits: Limits, treeEnabled: bool, at: At, tail: Tail, next: At)
    ensures TakeTail(input, limits, treeEnabled, at) == Got(tail, next)
            <==> TailReads(input, limits, treeEnabled, at, tail, next)
  {
    if TakeTail(input, limits, treeEnabled, at) == Got(tail, next) {
      var m1 := TakeScripts(input, limits, at).at;
      var m2 := TakeExternals(input, limits, m1).at;
      var m3 := TakeReferences(input, limits, treeEnabled, m2).at;
      PartsReadExactly(input, limits, treeEnabled, at, tail, m1, m2, m3, next);
    }
    if TailReads(input, limits, treeEnabled, at, tail, next) {
      var m1: At, m2: At, m3: At :| PartsRead(input, limits, treeEnabled, at, tail, m1, m2, m3, next);
      PartsReadExactly(input, limits, treeEnabled, at, tail, m1, m2, m3, next);
    }
  }

  lemma PartsReadExactly(input: Input, limits: Limits, treeEnabled: bool, at: At, tail: Tail, m1: At, m2: At, m3: At,
                         next: At)
    ensures PartsRead(input, limits, treeEnabled, at, tail, m1, m2, m3, next)
            <==> && TakeScripts(input, limits, at) == Got(tail.scripts, m1)
                 && TakeExternals(input, limits, m1) == Got(tail.externals, m2)
                 && TakeReferences(input, limits, treeEnabled, m2) == Got(tail.references, m3)
                 && TakeUser(input, limits, m3) == Got(tail.user, next)
  {
    ScriptsReadExactly(input, limits, at, tail.scripts, m1);
    ExternalsReadExactly(input, limits, m1, tail.externals, m2);
    ReferencesReadExactly(input, limits, treeEnabled, m2, tail.references, m3);
    StringReadsExactly(input, limits.maxTerminated, m3, tail.user, next);
  }
}
