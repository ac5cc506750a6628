/** A compiled schema against the bytes it was compiled from: every field of every node is spelled in its
    32 bytes, its names stand in the string tables, and its links are those the level bytes give. */
module SchemaWire {
  import opened Bytes
  import opened WireWords
  import opened SchemaTree
  import opened SchemaNames
  import opened SchemaCompiler

  /** The five parts of a schema's input: node records, local strings, their places, and common strings. */
  datatype Image = Image(nodes: seq<byte>, nodesOrigin: nat, local: seq<byte>, localOrigin: nat, common: seq<byte>,
                         bigEndian: bool)

  // ----- What the bytes say -----

  /** The 32 bytes of one node record. */
  predicate RecordSpelled(b: seq<byte>, bigEndian: bool, record: NodeRecord) {
    && record.level < 256 && |record.opaqueTail| == 8
    && b == Spelled(record.version, 2, bigEndian) + [record.level as byte, record.typeFlags]
            + Spelled(record.typeOffset, 4, bigEndian) + Spelled(record.nameOffset, 4, bigEndian)
            + Spelled(record.byteSize, 4, bigEndian) + Spelled(record.index, 4, bigEndian)
            + Spelled(record.metaFlags, 4, bigEndian) + record.opaqueTail
  }

  /** A terminated string that starts at `start` and nowhere inside another one. */
  predicate StandsAt(table: seq<byte>, start: nat, text: seq<byte>) {
    && start + |text| < |table| && table[start..start + |text|] == text && table[start + |text|] == 0
    && 0 !in text && (start == 0 || table[start - 1] == 0)
  }

  /** The name an offset word denotes: its high bit selects the common table. */
  predicate NameSpelled(image: Image, word: u32, name: SchemaString) {
    && name.Resolved? && name.encodedOffset == word
    && var spelled :=
         if word < 0x8000_0000
         then
           && StandsAt(image.local, word, name.text)
           && name.space == FileSpace && name.origin == image.localOrigin + word
         else
           && StandsAt(image.common, word - 0x8000_0000, name.text)
           && name.space == CommonSpace && name.origin == word - 0x8000_0000;
       spelled
  }

  /** No later node below `end` is as shallow as node `i`, and the one at `end`, if any, is. */
  predicate EndsAt(levels: seq<nat>, i: nat, end: nat)
    requires i < |levels|
  {
    && i < end <= |levels| && (forall k :: i < k < end ==> levels[k] > levels[i])
    && (end < |levels| ==> levels[end] <= levels[i])
  }

  /** The links of a node, from the levels alone. */
  ghost predicate LinksFit(levels: seq<nat>, i: nat, links: Links)
    requires i < |levels|
  {
    && EndsAt(levels, i, links.subtreeEnd)
    && ParentFits(levels, i, links.parent)
    && links.firstChild == (if links.subtreeEnd == i + 1 then 0xFFFF_FFFF_FFFF_FFFF else i + 1)
    && links.nextSibling == (if links.subtreeEnd < |levels| && levels[links.subtreeEnd] == levels[i]
                             then links.subtreeEnd else 0xFFFF_FFFF_FFFF_FFFF)
    && links.childCount == |ChildrenOf(levels, i)|
  }

  predicate ParentFits(levels: seq<nat>, i: nat, parent: nat)
    requires i < |levels|
  {
    if i == 0 then parent == 0xFFFF_FFFF_FFFF_FFFF
    else parent < i && levels[parent] + 1 == levels[i] && forall k :: parent < k < i ==> levels[k] >= levels[i]
  }

  /** The nodes of which `i` is the parent. */
  ghost function ChildrenOf(levels: seq<nat>, i: nat): set<nat> {
    set j: nat | i < j < |levels| && ParentFits(levels, j, i)
  }

  function LevelsOf(tree: seq<SchemaNode>): (r: seq<nat>)
    ensures |r| == |tree|
  {
    seq(|tree|, i requires 0 <= i < |tree| => tree[i].record.level)
  }

  /** Node `i` among the given levels is what the bytes spell. */
  ghost predicate NodeSpelled(image: Image, levels: seq<nat>, node: SchemaNode, i: nat)
    requires i < |levels|
  {
    && 32 * (i + 1) <= |image.nodes|
    && node.record.ordinal == i && node.record.offset == image.nodesOrigin + 32 * i
    && RecordSpelled(image.nodes[32 * i..32 * (i + 1)], image.bigEndian, node.record)
    && NameSpelled(image, node.record.typeOffset, node.typeName)
    && NameSpelled(image, node.record.nameOffset, node.fieldName)
    && LinksFit(levels, i, node.links)
  }

  /** The tree is exactly what the bytes spell. */
  ghost predicate TreeSpelled(image: Image, tree: seq<SchemaNode>) {
    var spelled :=
      && |image.nodes| == 32 * |tree|
      && forall i {:trigger tree[i]} :: 0 <= i < |tree| ==> NodeSpelled(image, LevelsOf(tree), tree[i], i);
    spelled
  }

  /** No node is deeper, and some node is that deep. */
  predicate DeepestAt(tree: seq<SchemaNode>, depth: nat) {
    && (forall i {:trigger tree[i]} :: 0 <= i < |tree| ==> tree[i].record.level <= depth)
    && (tree != [] ==> exists i {:trigger tree[i]} :: 0 <= i < |tree| && tree[i].record.level == depth)
  }

  /** Everything that the creation of a schema gives. */
  ghost predicate SchemaSpelled(image: Image, tree: seq<SchemaNode>, depth: nat) {
    var spelled := TreeSpelled(image, tree) && DeepestAt(tree, depth);
    spelled
  }

  // ----- The compiled tree is what they say -----

  function ImageOf(source: Source): Image {
    Image(source.nodes, source.nodesOrigin, source.local, source.localOrigin, source.common, source.bigEndian)
  }

  lemma RecordIsSpelled(source: Source, i: nat)
    requires source.Valid() && i < source.count
    ensures RecordSpelled(source.RecordBytes(i), source.bigEndian, source.Record(i))
  {
    var b, e := source.RecordBytes(i), source.bigEndian;
    Spells16(b[..2], e);
    Spells32(b[4..8], e);
    Spells32(b[8..12], e);
    Spells32(b[12..16], e);
    Spells32(b[16..20], e);
    Spells32(b[20..24], e);
    RecordParts(b);
  }

  lemma RecordParts(b: seq<byte>)
    requires |b| == 32
    ensures b == b[..2] + [b[2], b[3]] + b[4..8] + b[8..12] + b[12..16] + b[16..20] + b[20..24] + b[24..]
  {
  }

  lemma ResolvedStands(table: seq<byte>, offset: nat)
    requires ResolveInTable(table, offset).Some?
    ensures StandsAt(table, offset, ResolveInTable(table, offset).value)
  {
    var tail := table[offset..];
    var n := StrLen(tail);
    assert table[offset..offset + n] == tail[..n] && table[offset + n] == tail[n];
  }

  lemma NameIsSpelled(source: Source, word: u32)
    requires source.ResolveName(word).Some?
    ensures NameSpelled(ImageOf(source), word, source.Name(word))
  {
    ResolvedStands(if IsCommon(word) then source.common else source.local, TableOffset(word));
  }

  lemma ParentIsFitting(levels: seq<nat>, i: nat)
    requires Legal(levels) && i < |levels| <= SIZE_MAX
    ensures ParentFits(levels, i, Parent(levels, i))
    ensures forall p: nat {:trigger ParentFits(levels, i, p)} :: p < i && ParentFits(levels, i, p) ==>
      p == Parent(levels, i)
  {
    assert LegalAt(levels, i);
    if i > 0 {
      ParentIsNearestOneLevelUp(levels, i);
      forall p: nat | p < i && ParentFits(levels, i, p) ensures p == Parent(levels, i) {
        OneParent(levels, i, p, Parent(levels, i));
      }
    }
  }

  lemma OneParent(levels: seq<nat>, i: nat, p: nat, q: nat)
    requires 0 < i < |levels| && p < i && q < i && ParentFits(levels, i, p) && ParentFits(levels, i, q)
    ensures p == q
  {
  }

  ghost function ParentedBelow(levels: seq<nat>, i: nat, n: nat): set<nat>
    requires n <= |levels|
  {
    set j: nat | i < j < n && Parent(levels, j) == i
  }

  lemma {:induction false} CountIsCardinality(levels: seq<nat>, i: nat, n: nat)
    requires i < n <= |levels|
    ensures CountWithin(levels, i, n) == |ParentedBelow(levels, i, n)|
  {
    if n == i + 1 {
      assert ParentedBelow(levels, i, n) == {};
    } else {
      CountIsCardinality(levels, i, n - 1);
      ParentedOneMore(levels, i, n);
    }
  }

  lemma ParentedOneMore(levels: seq<nat>, i: nat, n: nat)
    requires i + 1 < n <= |levels|
    ensures ParentedBelow(levels, i, n)
         == ParentedBelow(levels, i, n - 1) + if Parent(levels, n - 1) == i then {n - 1} else {}
  {
  }

  lemma LinksAreFitting(levels: seq<nat>, i: nat)
    requires Legal(levels) && i < |levels| <= SIZE_MAX
    ensures LinksFit(levels, i, LinksOf(levels, i))
  {
    ScanEndIsFirstStop(levels, levels[i], i + 1, |levels|);
    ParentIsFitting(levels, i);
    CountIsCardinality(levels, i, |levels|);
    forall j: nat | i < j < |levels| ensures Parent(levels, j) == i <==> ParentFits(levels, j, i) {
      ParentIsFitting(levels, j);
    }
    assert ChildrenOf(levels, i) == ParentedBelow(levels, i, |levels|);
  }

  lemma LevelsOfTree(source: Source)
    requires source.Valid()
    ensures LevelsOf(Tree(source)) == source.Levels()
  {
    forall i | 0 <= i < source.count ensures LevelsOf(Tree(source))[i] == source.Levels()[i] {
      source.LevelOfRecord(i, source.count);
    }
  }

  /** What the compiler makes of a source it can compile is spelled by the source. */
  lemma CompiledTreeIsSpelled(source: Source)
    requires source.Valid() && source.count <= SIZE_MAX && Legal(source.Levels()) && AllResolve(source)
    ensures TreeSpelled(ImageOf(source), Tree(source))
  {
    LevelsOfTree(source);
    forall i | 0 <= i < source.count
      ensures NodeSpelled(ImageOf(source), source.Levels(), Tree(source)[i], i)
    {
      PartsOfNode(source, i, Tree(source)[i]);
      NodeIsSpelled(source, i, Tree(source)[i]);
    }
  }

  lemma SlotsOfNode(source: Source, i: nat)
    requires source.Valid() && i < source.count
    ensures source.OffsetAt(NAMES_PER_NODE * i) == source.Records()[i].typeOffset
    ensures source.OffsetAt(NAMES_PER_NODE * i + 1) == source.Records()[i].nameOffset
  {
    assert NAMES_PER_NODE * i / NAMES_PER_NODE == i && (NAMES_PER_NODE * i + 1) / NAMES_PER_NODE == i;
  }

  /** A node is its record, its links and the names its record points at. */
  ghost predicate Consists(source: Source, i: nat, node: SchemaNode)
    requires source.Valid() && i < source.count
  {
    && node.record == source.Record(i) && node.links == LinksOf(source.Levels(), i)
    && node.typeName == source.Name(node.record.typeOffset) && node.fieldName == source.Name(node.record.nameOffset)
    && source.ResolveName(node.record.typeOffset).Some? && source.ResolveName(node.record.nameOffset).Some?
  }

  lemma PartsOfNode(source: Source, i: nat, node: SchemaNode)
    requires source.Valid() && i < source.count && AllResolve(source) && node == TreeNode(source, i)
    ensures Consists(source, i, node)
  {
    source.RecordOfIndex(i, source.count);
    SlotsOfNode(source, i);
    var t, n := source.OffsetAt(NAMES_PER_NODE * i), source.OffsetAt(NAMES_PER_NODE * i + 1);
    assert source.ResolveName(t).Some? && source.ResolveName(n).Some?;
  }

  lemma NodeIsSpelled(source: Source, i: nat, node: SchemaNode)
    requires source.Valid() && i < source.count <= SIZE_MAX && Legal(source.Levels()) && Consists(source, i, node)
    ensures NodeSpelled(ImageOf(source), source.Levels(), node, i)
  {
    RecordIsSpelled(source, i);
    LinksAreFitting(source.Levels(), i);
    NameIsSpelled(source, node.record.typeOffset);
    NameIsSpelled(source, node.record.nameOffset);
  }

  // ----- Which bytes compile -----

  /** Some name stands where an offset word points. */
  ghost predicate Denotes(image: Image, word: u32) {
    if word < 0x8000_0000 then SomeNameAt(image.local, word) else SomeNameAt(image.common, word - 0x8000_0000)
  }

  ghost predicate SomeNameAt(table: seq<byte>, start: nat) {
    exists text :: StandsAt(table, start, text)
  }

  /** The level byte of record `i` continues the levels before it and is not too deep. */
  predicate LevelFits(image: Image, i: nat, maxDepth: nat)
    requires 32 * (i + 1) <= |image.nodes|
  {
    var level := image.nodes[32 * i + 2] as nat;
    level <= maxDepth && if i == 0 then level == 0 else 1 <= level <= image.nodes[32 * i - 30] as nat + 1
  }

  /** The two offset words of record `i` point at names. */
  ghost predicate NamesFit(image: Image, i: nat)
    requires 32 * (i + 1) <= |image.nodes|
  {
    && Denotes(image, Decode32(image.nodes[32 * i + 4..32 * i + 8], image.bigEndian))
    && Denotes(image, Decode32(image.nodes[32 * i + 8..32 * i + 12], image.bigEndian))
  }

  /** The records of a tree that can be compiled. */
  ghost predicate Readable(image: Image, count: nat, maxDepth: nat) {
    && |image.nodes| == 32 * count
    && (forall i {:trigger LevelFits(image, i, maxDepth)} :: 0 <= i < count ==> LevelFits(image, i, maxDepth))
    && forall i {:trigger NamesFit(image, i)} :: 0 <= i < count ==> NamesFit(image, i)
  }

  lemma StandingResolves(table: seq<byte>, offset: nat, text: seq<byte>)
    requires StandsAt(table, offset, text)
    ensures ResolveInTable(table, offset) == Some(text)
  {
    assert table[offset..][..|text|] == text;
    StrLenIsFirstZero(table[offset..], |text|);
  }

  lemma ResolvesWhatStands(table: seq<byte>, offset: nat)
    ensures ResolveInTable(table, offset).Some? <==> SomeNameAt(table, offset)
  {
    if ResolveInTable(table, offset).Some? {
      ResolvedStands(table, offset);
    }
    if text :| StandsAt(table, offset, text) {
      StandingResolves(table, offset, text);
    }
  }

  lemma ResolvesWhatIsDenoted(source: Source, word: u32)
    ensures source.ResolveName(word).Some? <==> Denotes(ImageOf(source), word)
  {
    ResolvesWhatStands(source.local, word);
    if word >= 0x8000_0000 {
      ResolvesWhatStands(source.common, word - 0x8000_0000);
    }
  }

  lemma LevelsOnTheWire(source: Source, i: nat)
    requires source.Valid() && i < source.count
    ensures source.Levels()[i] == source.nodes[32 * i + 2] as nat
  {
    source.LevelOfRecord(i, source.count);
    source.RecordOfIndex(i, source.count);
    assert source.RecordBytes(i)[2] == source.nodes[32 * i + 2];
  }

  lemma OffsetsOnTheWire(source: Source, i: nat)
    requires source.Valid() && i < source.count
    ensures source.OffsetAt(NAMES_PER_NODE * i) == Decode32(source.nodes[32 * i + 4..32 * i + 8], source.bigEndian)
    ensures source.OffsetAt(NAMES_PER_NODE * i + 1) == Decode32(source.nodes[32 * i + 8..32 * i + 12], source.bigEndian)
  {
    SlotsOfNode(source, i);
    source.RecordOfIndex(i, source.count);
    SliceOfSlice(source.nodes, 32 * i, 32 * (i + 1), 4, 8);
    SliceOfSlice(source.nodes, 32 * i, 32 * (i + 1), 8, 12);
  }

  lemma SliceOfSlice(s: seq<byte>, start: nat, end: nat, i: nat, j: nat)
    requires start <= end <= |s| && i <= j <= end - start
    ensures s[start..end][i..j] == s[start + i..start + j]
  {
    forall k | 0 <= k < j - i ensures s[start..end][i..j][k] == s[start + i..start + j][k] {
    }
  }

  lemma LevelFitsWhenLegal(source: Source, maxDepth: nat, i: nat)
    requires source.Valid() && i < source.count
    ensures LevelFits(ImageOf(source), i, maxDepth)
            <==> LegalAt(source.Levels(), i) && source.Levels()[i] <= maxDepth
  {
    LevelsOnTheWire(source, i);
    if i > 0 {
      LevelsOnTheWire(source, i - 1);
    }
  }

  lemma NamesFitWhenResolved(source: Source, i: nat)
    requires source.Valid() && i < source.count
    ensures NamesFit(ImageOf(source), i) <==>
              && source.ResolveName(source.OffsetAt(NAMES_PER_NODE * i)).Some?
              && source.ResolveName(source.OffsetAt(NAMES_PER_NODE * i + 1)).Some?
  {
    OffsetsOnTheWire(source, i);
    ResolvesWhatIsDenoted(source, source.OffsetAt(NAMES_PER_NODE * i));
    ResolvesWhatIsDenoted(source, source.OffsetAt(NAMES_PER_NODE * i + 1));
  }

  lemma AllNamesFit(source: Source)
    requires source.Valid()
    ensures AllResolve(source) <==>
              forall i {:trigger NamesFit(ImageOf(source), i)} :: 0 <= i < source.count ==> NamesFit(ImageOf(source), i)
  {
    forall i | 0 <= i < source.count && AllResolve(source) ensures NamesFit(ImageOf(source), i) {
      NamesFitWhenResolved(source, i);
    }
    if forall i {:trigger NamesFit(ImageOf(source), i)} :: 0 <= i < source.count ==> NamesFit(ImageOf(source), i) {
      forall slot | 0 <= slot < NAMES_PER_NODE * source.count
        ensures source.ResolveName(source.OffsetAt(slot)).Some?
      {
        HalvesOfSlots(slot, slot / NAMES_PER_NODE);
        SlotFits(source, slot / NAMES_PER_NODE, slot);
      }
    }
  }

  lemma SlotFits(source: Source, i: nat, slot: nat)
    requires source.Valid() && i < source.count && NamesFit(ImageOf(source), i)
    requires slot == NAMES_PER_NODE * i || slot == NAMES_PER_NODE * i + 1
    ensures source.ResolveName(source.OffsetAt(slot)).Some?
  {
    NamesFitWhenResolved(source, i);
  }

  lemma HalvesOfSlots(slot: nat, i: nat)
    requires i == slot / NAMES_PER_NODE
    ensures slot == NAMES_PER_NODE * i || slot == NAMES_PER_NODE * i + 1
  {
  }

  /** The compiler accepts exactly the bytes whose levels and names fit. */
  lemma ReadableIsCompilable(source: Source, maxDepth: nat)
    requires source.Valid()
    ensures Compilable(source, maxDepth) <==> Readable(ImageOf(source), source.count, maxDepth)
  {
    AllNamesFit(source);
    forall i | 0 <= i < source.count
      ensures LevelFits(ImageOf(source), i, maxDepth)
              <==> LegalAt(source.Levels(), i) && source.Levels()[i] <= maxDepth
    {
      LevelFitsWhenLegal(source, maxDepth, i);
    }
  }

  lemma {:induction false} MaxLevelIsReached(levels: seq<nat>)
    ensures forall i :: 0 <= i < |levels| ==> levels[i] <= MaxLevel(levels)
    ensures levels != [] ==> exists i :: 0 <= i < |levels| && levels[i] == MaxLevel(levels)
  {
    if levels != [] {
      var front, last := levels[..|levels| - 1], levels[|levels| - 1];
      MaxLevelIsReached(front);
      assert forall i :: 0 <= i < |front| ==> levels[i] == front[i];
      if MaxLevel(levels) != last {
        assert front != [];
        var i :| 0 <= i < |front| && front[i] == MaxLevel(front);
        assert levels[i] == MaxLevel(levels);
      }
    }
  }

  /** The maximum of the levels is the depth of the tree. */
  lemma TreeIsAsDeep(source: Source)
    requires source.Valid()
    ensures DeepestAt(Tree(source), MaxLevel(source.Levels()))
  {
    LevelsOfTree(source);
    var levels, tree := source.Levels(), Tree(source);
    MaxLevelIsReached(levels);
    assert LevelsOf(tree) == levels;
    forall i | 0 <= i < |tree| ensures tree[i].record.level <= MaxLevel(levels) {
      assert LevelsOf(tree)[i] == tree[i].record.level;
    }
    if tree != [] {
      var i :| 0 <= i < |levels| && levels[i] == MaxLevel(levels);
      assert LevelsOf(tree)[i] == tree[i].record.level;
    }
  }
}
