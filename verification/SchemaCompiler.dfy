/** The schema compiler of src/io/serialized_file_schema.c: decoding, hierarchy, radix order and
    string resolution under one exact work meter. */
module SchemaCompiler {
  import opened Bytes
  import opened SchemaTree
  import opened SchemaNames

  const NODE_BYTES: nat := 32
  const HIERARCHY_LEVELS: nat := 256
  const NAMES_PER_NODE: nat := 2

  datatype Limit = NodesLimit | LocalStringsLimit | RetainedLimit | ScratchLimit | DepthLimit | WorkLimit

  datatype Status =
    | Ok
    | LimitExceeded(limit: Limit)
    | MalformedHierarchy
    | InvalidStringOffset
    | UnterminatedString
    | UnsupportedEngine
    | InvalidArgument
    | NoEmbeddedTree
    | SourceMismatch
    | AllocationFailed

  datatype Field = NoField | NodeRecordField | LevelField | TypeOffsetField | NameOffsetField | TerminatorField

  datatype Space = NoSource | FileSpace | CommonSpace

  /** Where and why a compilation stopped; `node` is ABSENT for owner and byte-scan failures. */
  datatype Diagnostic = Diagnostic(status: Status, field: Field, node: nat, space: Space, offset: nat)

  const NO_FAILURE := Diagnostic(Ok, NoField, ABSENT, NoSource, ABSENT)

  /** The immutable bytes one compilation reads: node records, local strings, common strings. */
  datatype Source = Source(count: nat, nodes: seq<byte>, nodesOrigin: nat, local: seq<byte>, localOrigin: nat,
                           common: seq<byte>, bigEndian: bool)
  {
    predicate Valid() {
      |nodes| == NODE_BYTES * count && NAMES_PER_NODE * count <= SIZE_MAX
    }

    function RecordBytes(i: nat): (r: seq<byte>)
      requires Valid() && i < count
      ensures |r| == NODE_BYTES
    {
      nodes[NODE_BYTES * i..NODE_BYTES * (i + 1)]
    }

    function RecordOffset(i: nat): nat {
      nodesOrigin + i * NODE_BYTES
    }

    function Record(i: nat): NodeRecord
      requires Valid() && i < count
    {
      var b := RecordBytes(i);
      NodeRecord(i, RecordOffset(i), Decode16(b[..2], bigEndian), LevelAt(i), b[3],
                 Decode32(b[4..8], bigEndian), Decode32(b[8..12], bigEndian), Decode32(b[12..16], bigEndian),
                 Decode32(b[16..20], bigEndian), Decode32(b[20..24], bigEndian), b[24..])
    }

    function LevelAt(i: nat): (r: nat)
      requires Valid() && i < count
      ensures r < HIERARCHY_LEVELS
    {
      RecordBytes(i)[2] as nat
    }

    function RecordsUpTo(n: nat): (r: seq<NodeRecord>)
      requires Valid() && n <= count
      ensures |r| == n
    {
      if n == 0 then [] else RecordsUpTo(n - 1) + [Record(n - 1)]
    }

    function Records(): (r: seq<NodeRecord>)
      requires Valid()
      ensures |r| == count
    {
      RecordsUpTo(count)
    }

    lemma {:induction false} RecordOfIndex(i: nat, n: nat)
      requires Valid() && i < n <= count
      ensures RecordsUpTo(n)[i] == Record(i)
    {
      if i + 1 < n {
        RecordOfIndex(i, n - 1);
      }
    }

    function LevelsUpTo(n: nat): (r: seq<nat>)
      requires Valid() && n <= count
      ensures |r| == n
    {
      if n == 0 then [] else LevelsUpTo(n - 1) + [LevelAt(n - 1)]
    }

    function Levels(): (r: seq<nat>)
      requires Valid()
      ensures |r| == count
    {
      LevelsUpTo(count)
    }

    lemma {:induction false} LevelOfRecord(i: nat, n: nat)
      requires Valid() && i < n <= count
      ensures RecordsUpTo(n)[i].level == LevelsUpTo(n)[i] < HIERARCHY_LEVELS
    {
      if i + 1 < n {
        LevelOfRecord(i, n - 1);
      }
    }

    function Table(isCommon: bool): seq<byte> {
      if isCommon then common else local
    }

    function TableOrigin(isCommon: bool): nat {
      if isCommon then 0 else localOrigin
    }

    function ResolveName(encoded: u32): Option<seq<byte>> {
      Resolve(local, common, encoded)
    }

    /** The name a resolvable offset denotes. */
    function Name(encoded: u32): SchemaString {
      match ResolveName(encoded)
      case None => Unresolved
      case Some(text) =>
        Resolved(if IsCommon(encoded) then CommonSpace else FileSpace, encoded, text,
                 TableOrigin(IsCommon(encoded)) + TableOffset(encoded))
    }

    /** The encoded offset in request slot `slot`. */
    function OffsetAt(slot: nat): u32
      requires Valid() && slot < NAMES_PER_NODE * count
    {
      var record := Records()[slot / NAMES_PER_NODE];
      if slot % NAMES_PER_NODE == 0 then record.typeOffset else record.nameOffset
    }

  }

  datatype NodeRecord = NodeRecord(ordinal: nat, offset: nat, version: u16, level: nat, typeFlags: byte,
                                   typeOffset: u32, nameOffset: u32, byteSize: u32, index: u32, metaFlags: u32,
                                   opaqueTail: seq<byte>)

  /** A resolved name: where it lives, the offset word that named it, and its text. */
  datatype SchemaString = Unresolved | Resolved(space: Space, encodedOffset: u32, text: seq<byte>, origin: nat)

  datatype SchemaNode = SchemaNode(record: NodeRecord, links: Links, typeName: SchemaString, fieldName: SchemaString)

  class SchemaCompile {
    const source: Source
    const maxWork: nat
    const maxDepth: nat
    var workUsed: nat
    var failure: Diagnostic
    var maximumDepth: nat
    var nodes: array<SchemaNode>
    var requests: array<NameRequest>
    var sorted: array<NameRequest>

    constructor (source: Source, maxWork: nat, maxDepth: nat)
      ensures this.source == source && this.maxWork == maxWork && this.maxDepth == maxDepth
      ensures workUsed == 0 && failure == NO_FAILURE && maximumDepth == 0
    {
      this.source, this.maxWork, this.maxDepth := source, maxWork, maxDepth;
      workUsed, failure, maximumDepth := 0, NO_FAILURE, 0;
      nodes := new SchemaNode[0];
      requests := new NameRequest[0];
      sorted := new NameRequest[0];
    }

    ghost predicate Valid()
      reads this
    {
      Shape() && workUsed <= maxWork
    }

    ghost predicate Shape()
      reads this`nodes, this`requests, this`sorted
    {
      && source.Valid()
      && nodes.Length == source.count
      && requests.Length == sorted.Length == NAMES_PER_NODE * source.count
      && requests != sorted
    }

    method Reject(status: Status, field: Field, node: nat, space: Space, offset: nat)
      modifies this`failure
      ensures failure == Diagnostic(status, field, node, space, offset)
    {
      failure := Diagnostic(status, field, node, space, offset);
    }

    method Charge(amount: nat, field: Field, node: nat, space: Space, offset: nat) returns (ok: bool)
      requires workUsed <= maxWork
      modifies this`workUsed, this`failure
      ensures ok <==> old(workUsed) + amount <= maxWork
      ensures ok ==> workUsed == old(workUsed) + amount && failure == old(failure)
      ensures !ok ==> workUsed == old(workUsed)
      ensures !ok ==> failure == Diagnostic(LimitExceeded(WorkLimit), field, node, space, offset)
    {
      if amount > maxWork - workUsed {
        Reject(LimitExceeded(WorkLimit), field, node, space, offset);
        return false;
      }
      workUsed := workUsed + amount;
      ok := true;
    }

    method ChargeOwner(amount: nat) returns (ok: bool)
      requires workUsed <= maxWork
      modifies this`workUsed, this`failure
      ensures ok <==> old(workUsed) + amount <= maxWork
      ensures ok ==> workUsed == old(workUsed) + amount && failure == old(failure)
      ensures !ok ==> workUsed == old(workUsed) && failure.status == LimitExceeded(WorkLimit)
    {
      ok := Charge(amount, NoField, ABSENT, NoSource, ABSENT);
    }

    // ----- Hierarchy -----

    /** Node `i` and its two requests are decoded; nothing is said about its links. */
    ghost predicate NodeDecoded(i: nat)
      requires Shape() && i < source.count
      reads this`nodes, this`requests, this`sorted, nodes, requests
    {
      && nodes[i].record == source.Records()[i]
      && nodes[i].typeName == Unresolved && nodes[i].fieldName == Unresolved
      && requests[NAMES_PER_NODE * i] == NameRequest(nodes[i].record.typeOffset, NAMES_PER_NODE * i)
      && requests[NAMES_PER_NODE * i + 1] == NameRequest(nodes[i].record.nameOffset, NAMES_PER_NODE * i + 1)
    }

    ghost predicate Decoded(n: nat)
      requires Shape() && n <= source.count
      reads this`nodes, this`requests, this`sorted, nodes, requests
    {
      forall i :: 0 <= i < n ==> NodeDecoded(i)
    }

    ghost predicate Ancestors(ancestors: array<nat>, lastChild: array<nat>, n: nat, active: nat)
      requires source.Valid() && n <= source.count
      reads ancestors, lastChild
    {
      var levels := source.Levels();
      && ancestors.Length == lastChild.Length == HIERARCHY_LEVELS && ancestors != lastChild
      && active == (if n == 0 then 0 else levels[n - 1] + 1) <= HIERARCHY_LEVELS
      && (forall l :: 0 <= l < active ==> ancestors[l] == LastAtMost(levels, n, l))
      && (forall l :: 0 <= l < active ==>
          lastChild[l] == if l + 1 < active then LastAtMost(levels, n, l + 1) else ABSENT)
    }

    method ReadRecord(ordinal: nat) returns (record: NodeRecord)
      requires source.Valid() && ordinal < source.count
      ensures record == source.Records()[ordinal]
    {
      source.RecordOfIndex(ordinal, source.count);
      record := source.Record(ordinal);
    }

    method DecodeNode(ordinal: nat)
      requires Valid() && ordinal < source.count && Decoded(ordinal)
      modifies nodes, requests
      ensures Valid() && Decoded(ordinal + 1)
      ensures nodes[ordinal].links == Links(ABSENT, ABSENT, ABSENT, 0, 0)
      ensures forall i :: 0 <= i < ordinal ==> nodes[i] == old(nodes[i])
    {
      var record := ReadRecord(ordinal);
      nodes[ordinal] := SchemaNode(record, Links(ABSENT, ABSENT, ABSENT, 0, 0), Unresolved, Unresolved);
      var slot := NAMES_PER_NODE * ordinal;
      requests[slot] := NameRequest(record.typeOffset, slot);
      requests[slot + 1] := NameRequest(record.nameOffset, slot + 1);
      forall i | 0 <= i < ordinal
        ensures NodeDecoded(i)
      {
        assert old(NodeDecoded(i)) && nodes[i] == old(nodes[i]);
      }
    }

    method CloseSubtree(ordinal: nat, end: nat) returns (ok: bool)
      requires Valid() && ordinal < source.count
      modifies this`workUsed, this`failure, nodes
      ensures Valid()
      ensures ok <==> old(workUsed) + 1 <= maxWork
      ensures ok ==> workUsed == old(workUsed) + 1 && failure == old(failure)
      ensures ok ==> nodes[ordinal] == old(nodes[ordinal]).(links := old(nodes[ordinal]).links.(subtreeEnd := end))
      ensures !ok ==> failure.status == LimitExceeded(WorkLimit)
      ensures forall i :: 0 <= i < nodes.Length && i != ordinal ==> nodes[i] == old(nodes[i])
      ensures forall m :: 0 <= m <= source.count && old(Decoded(m)) ==> Decoded(m)
    {
      var node := nodes[ordinal];
      ok := Charge(1, LevelField, ordinal, FileSpace, node.record.offset + 2);
      if ok {
        SetLinks(ordinal, node.links.(subtreeEnd := end));
      }
    }

    /** Close the open subtrees from the deepest down to `level`; they end at `end`. */
    method CloseDownTo(ancestors: array<nat>, n: nat, active: nat, level: nat) returns (ok: bool, rest: nat)
      requires Valid() && n <= source.count && LegalPrefix(source.Levels(), n)
      requires level <= active == (if n == 0 then 0 else source.Levels()[n - 1] + 1) <= ancestors.Length
      requires forall l :: 0 <= l < active ==> ancestors[l] == LastAtMost(source.Levels(), n, l)
      requires forall i :: 0 <= i < n ==> nodes[i].links == LinksWithin(source.Levels(), i, n)
      modifies this`workUsed, this`failure, nodes
      ensures Valid()
      ensures forall m :: 0 <= m <= source.count && old(Decoded(m)) ==> Decoded(m)
      ensures ok <==> old(workUsed) + (active - level) <= maxWork
      ensures ok ==> rest == level && workUsed == old(workUsed) + (active - level) && failure == old(failure)
      ensures ok ==> forall i :: 0 <= i < n ==> nodes[i].links == PartlyClosed(source.Levels(), i, n, level)
      ensures !ok ==> failure.status == LimitExceeded(WorkLimit)
      ensures forall i :: n <= i < nodes.Length ==> nodes[i] == old(nodes[i])
    {
      rest := active;
      ghost var levels := source.Levels();
      forall i | 0 <= i < n
        ensures PartlyClosed(levels, i, n, active) == LinksWithin(levels, i, n)
      {
        OpenIsAncestor(levels, i, n);
      }
      while rest > level
        invariant Valid() && level <= rest <= active
        invariant forall m :: 0 <= m <= source.count && old(Decoded(m)) ==> Decoded(m)
        invariant workUsed == old(workUsed) + (active - rest) && failure == old(failure)
        invariant forall i :: 0 <= i < n ==> nodes[i].links == PartlyClosed(levels, i, n, rest)
        invariant forall i :: n <= i < nodes.Length ==> nodes[i] == old(nodes[i])
      {
        rest := rest - 1;
        AncestorHasItsLevel(levels, n, rest);
        ok := CloseSubtree(ancestors[rest], n);
        if !ok {
          return;
        }
        forall i | 0 <= i < n
          ensures nodes[i].links == PartlyClosed(levels, i, n, rest)
        {
          CloseStep(levels, i, n, rest);
        }
      }
      ok := true;
    }

    /** Hook node `ordinal` under parent `p`, behind previous sibling `c` if there is one. */
    method HookChild(ordinal: nat, p: nat, c: nat)
      requires Valid() && ordinal < source.count && Decoded(ordinal + 1)
      requires p < ordinal && (c == ABSENT || p < c < ordinal)
      requires ordinal < ABSENT
      modifies nodes
      ensures Valid() && Decoded(ordinal + 1)
      ensures nodes[ordinal].links == old(nodes[ordinal]).links.(parent := p)
      ensures forall i :: 0 <= i < ordinal ==> nodes[i].links == Hooked(old(nodes[i]).links, i, p, c, ordinal)
    {
      SetLinks(ordinal, nodes[ordinal].links.(parent := p));
      if c == ABSENT {
        SetLinks(p, nodes[p].links.(firstChild := ordinal));
      } else {
        SetLinks(c, nodes[c].links.(nextSibling := ordinal));
      }
      SetLinks(p, nodes[p].links.(childCount := nodes[p].links.childCount + 1));
    }

    /** Node `ordinal` becomes the deepest ancestor and the last child of the one above it. */
    method PushAncestor(ordinal: nat, level: nat, ancestors: array<nat>, lastChild: array<nat>)
      requires Valid() && ordinal < source.count
      requires LegalPrefix(source.Levels(), ordinal + 1) && level == source.Levels()[ordinal] < HIERARCHY_LEVELS
      requires ordinal > 0 ==> Ancestors(ancestors, lastChild, ordinal, source.Levels()[ordinal - 1] + 1)
      requires ancestors.Length == lastChild.Length == HIERARCHY_LEVELS && ancestors != lastChild
      modifies ancestors, lastChild
      ensures Ancestors(ancestors, lastChild, ordinal + 1, level + 1)
    {
      assert LegalAt(source.Levels(), ordinal);
      if level > 0 {
        lastChild[level - 1] := ordinal;
      }
      ancestors[level] := ordinal;
      lastChild[level] := ABSENT;
    }

    /** Set the parent of node `ordinal` and hook it behind its previous sibling. */
    method LinkNode(ordinal: nat, level: nat, ancestors: array<nat>, lastChild: array<nat>)
      requires Valid() && ordinal < source.count && Decoded(ordinal + 1)
      requires LegalPrefix(source.Levels(), ordinal + 1) && level == source.Levels()[ordinal] < HIERARCHY_LEVELS
      requires ordinal > 0 ==> Ancestors(ancestors, lastChild, ordinal, source.Levels()[ordinal - 1] + 1)
      requires ancestors.Length == lastChild.Length == HIERARCHY_LEVELS && ancestors != lastChild
      requires forall i :: 0 <= i < ordinal ==> nodes[i].links == PartlyClosed(source.Levels(), i, ordinal, level)
      requires nodes[ordinal].links == Links(ABSENT, ABSENT, ABSENT, 0, 0)
      modifies nodes, ancestors, lastChild
      ensures Valid() && Decoded(ordinal + 1)
      ensures forall i :: 0 <= i <= ordinal ==> nodes[i].links == LinksWithin(source.Levels(), i, ordinal + 1)
      ensures Ancestors(ancestors, lastChild, ordinal + 1, level + 1)
    {
      ghost var levels := source.Levels();
      assert LegalAt(levels, ordinal);
      NewLinks(levels, ordinal);
      forall i | 0 <= i < ordinal
        ensures LinksWithin(levels, i, ordinal + 1)
             == Hooked(nodes[i].links, i, Parent(levels, ordinal), PreviousChild(levels, ordinal), ordinal)
      {
        LinkAfterClosing(levels, i, ordinal);
      }
      if level > 0 {
        AncestorHasItsLevel(levels, ordinal, level - 1);
        PreviousChildFollowsParent(levels, ordinal);
        HookChild(ordinal, ancestors[level - 1], lastChild[level - 1]);
      }
      PushAncestor(ordinal, level, ancestors, lastChild);
    }

    method SetLinks(i: nat, links: Links)
      requires Valid() && i < source.count
      modifies nodes
      ensures Valid() && nodes[i] == old(nodes[i]).(links := links)
      ensures forall j :: 0 <= j < nodes.Length && j != i ==> nodes[j] == old(nodes[j])
      ensures forall n :: 0 <= n <= source.count && old(Decoded(n)) ==> Decoded(n)
    {
      nodes[i] := nodes[i].(links := links);
      forall j | 0 <= j < source.count && old(NodeDecoded(j))
        ensures NodeDecoded(j)
      {
        assert nodes[j].record == old(nodes[j].record);
      }
    }

    /** Decode one node and check its level against the hierarchy and the depth cap. */
    method AdmitNode(ordinal: nat, active: nat) returns (ok: bool)
      requires Valid() && ordinal < source.count && Decoded(ordinal)
      requires active == if ordinal == 0 then 0 else source.Levels()[ordinal - 1] + 1
      modifies this`workUsed, this`failure, nodes, requests
      ensures Valid()
      ensures ok <==> LegalAt(source.Levels(), ordinal) && source.Levels()[ordinal] <= maxDepth
                      && old(workUsed) + NODE_BYTES + 1 <= maxWork
      ensures ok ==> workUsed == old(workUsed) + NODE_BYTES + 1 && failure == old(failure)
      ensures ok ==> Decoded(ordinal + 1) && nodes[ordinal].links == Links(ABSENT, ABSENT, ABSENT, 0, 0)
      ensures ok ==> nodes[ordinal].record.level == source.Levels()[ordinal] < HIERARCHY_LEVELS
      ensures ok ==> forall i :: 0 <= i < ordinal ==> nodes[i] == old(nodes[i])
      ensures !ok ==> NodeFailure(source.Levels(), maxDepth, ordinal, failure)
    {
      source.LevelOfRecord(ordinal, source.count);
      var offset := source.RecordOffset(ordinal);
      ok := Charge(NODE_BYTES + 1, NodeRecordField, ordinal, FileSpace, offset);
      if !ok {
        return;
      }
      DecodeNode(ordinal);
      assert NodeDecoded(ordinal);
      var level := nodes[ordinal].record.level;
      if (ordinal == 0 && level != 0) || (ordinal > 0 && (level == 0 || level > active)) {
        Reject(MalformedHierarchy, LevelField, ordinal, FileSpace, offset + 2);
        return false;
      }
      if level > maxDepth {
        Reject(LimitExceeded(DepthLimit), LevelField, ordinal, FileSpace, offset + 2);
        return false;
      }
    }

    /** One node of the hierarchy pass. */
    method CompileNode(ordinal: nat, ancestors: array<nat>, lastChild: array<nat>, active: nat)
      returns (ok: bool, next: nat)
      requires Valid() && ordinal < source.count && Decoded(ordinal) && LegalPrefix(source.Levels(), ordinal)
      requires WithinDepth(source.Levels(), ordinal, maxDepth) && Ancestors(ancestors, lastChild, ordinal, active)
      requires forall i :: 0 <= i < ordinal ==> nodes[i].links == LinksWithin(source.Levels(), i, ordinal)
      modifies this`workUsed, this`failure, this`maximumDepth, nodes, requests, ancestors, lastChild
      ensures Valid()
      ensures ok <==> LegalAt(source.Levels(), ordinal) && source.Levels()[ordinal] <= maxDepth
                      && old(workUsed) + NODE_BYTES + 1 + (active - source.Levels()[ordinal]) <= maxWork
      ensures ok ==> workUsed == old(workUsed) + NODE_BYTES + 1 + (active - source.Levels()[ordinal])
      ensures ok ==> failure == old(failure) && Decoded(ordinal + 1)
      ensures ok ==> maximumDepth == Max(old(maximumDepth), source.Levels()[ordinal])
      ensures ok ==> forall i :: 0 <= i <= ordinal ==> nodes[i].links == LinksWithin(source.Levels(), i, ordinal + 1)
      ensures ok ==> next == source.Levels()[ordinal] + 1 && Ancestors(ancestors, lastChild, ordinal + 1, next)
      ensures !ok ==> NodeFailure(source.Levels(), maxDepth, ordinal, failure)
    {
      next := active;
      ok := AdmitNode(ordinal, active);
      if !ok {
        return;
      }
      var level := nodes[ordinal].record.level;
      PrefixStep(source.Levels(), ordinal, maxDepth);
      var rest;
      ok, rest := CloseDownTo(ancestors, ordinal, active, level);
      if !ok {
        return;
      }
      LinkNode(ordinal, level, ancestors, lastChild);
      next := level + 1;
      if level > maximumDepth {
        maximumDepth := level;
      }
    }

    /** The whole hierarchy pass: 33 units to decode and link each node and one to close it. */
    method CompileNodes() returns (ok: bool)
      requires Valid() && maximumDepth == 0
      modifies this`workUsed, this`failure, this`maximumDepth, nodes, requests
      ensures Valid()
      ensures ok <==> Legal(source.Levels()) && WithinDepth(source.Levels(), source.count, maxDepth)
                      && old(workUsed) + (NODE_BYTES + 2) * source.count <= maxWork
      ensures ok ==> workUsed == old(workUsed) + (NODE_BYTES + 2) * source.count && failure == old(failure)
      ensures ok ==> Decoded(source.count)
      ensures ok ==> forall i :: 0 <= i < source.count ==> nodes[i].links == LinksOf(source.Levels(), i)
      ensures ok ==> maximumDepth == MaxLevel(source.Levels())
      ensures !ok ==> HierarchyFailure(source.Levels(), maxDepth, failure)
    {
      var ancestors := new nat[HIERARCHY_LEVELS];
      var lastChild := new nat[HIERARCHY_LEVELS];
      var active, rest;
      ok, active := CompileAll(ancestors, lastChild);
      if ok {
        ok, rest := CloseDownTo(ancestors, source.count, active, 0);
      }
    }

    method CompileAll(ancestors: array<nat>, lastChild: array<nat>) returns (ok: bool, active: nat)
      requires Valid() && maximumDepth == 0
      requires ancestors.Length == lastChild.Length == HIERARCHY_LEVELS && ancestors != lastChild
      modifies this`workUsed, this`failure, this`maximumDepth, nodes, requests, ancestors, lastChild
      ensures Valid()
      ensures ok ==> Legal(source.Levels()) && WithinDepth(source.Levels(), source.count, maxDepth)
      ensures ok ==> Ancestors(ancestors, lastChild, source.count, active) && active <= source.count
      ensures ok ==> workUsed == old(workUsed) + (NODE_BYTES + 2) * source.count - active && failure == old(failure)
      ensures ok ==> Decoded(source.count)
      ensures ok ==> forall i :: 0 <= i < source.count ==>
        nodes[i].links == LinksWithin(source.Levels(), i, source.count)
      ensures ok ==> maximumDepth == MaxLevel(source.Levels())
      ensures !ok ==> HierarchyFailure(source.Levels(), maxDepth, failure)
      ensures !ok && Legal(source.Levels()) && WithinDepth(source.Levels(), source.count, maxDepth) ==>
                old(workUsed) + (NODE_BYTES + 2) * source.count > maxWork
    {
      ghost var levels := source.Levels();
      active := 0;
      for ordinal := 0 to source.count
        invariant Valid() && Decoded(ordinal) && failure == old(failure)
        invariant LegalPrefix(levels, ordinal) && WithinDepth(levels, ordinal, maxDepth)
        invariant Ancestors(ancestors, lastChild, ordinal, active) && active <= ordinal
        invariant workUsed == old(workUsed) + (NODE_BYTES + 2) * ordinal - active
        invariant forall i :: 0 <= i < ordinal ==> nodes[i].links == LinksWithin(levels, i, ordinal)
        invariant maximumDepth == MaxLevel(levels[..ordinal])
      {
        MaxLevelStep(levels, ordinal);
        ok, active := CompileNode(ordinal, ancestors, lastChild, active);
        if !ok {
          return;
        }
        PrefixStep(levels, ordinal, maxDepth);
      }
      ok := true;
      assert levels[..source.count] == levels;
    }

    // ----- Names: radix order -----

    method CountBuckets(from: array<NameRequest>, pass: nat, offsets: array<nat>) returns (ok: bool)
      requires workUsed <= maxWork && pass < RADIX_PASSES && offsets.Length == RADIX_BUCKETS
      requires forall b :: 0 <= b < RADIX_BUCKETS ==> offsets[b] == 0
      modifies this`workUsed, this`failure, offsets
      ensures workUsed <= maxWork
      ensures ok <==> old(workUsed) + from.Length <= maxWork
      ensures ok ==> workUsed == old(workUsed) + from.Length && failure == old(failure)
      ensures ok ==> forall b :: 0 <= b < RADIX_BUCKETS ==> offsets[b] == |Filter(from[..], pass, b)|
      ensures !ok ==> failure.status == LimitExceeded(WorkLimit)
    {
      ghost var s := from[..];
      for index := 0 to from.Length
        invariant workUsed == old(workUsed) + index <= maxWork && failure == old(failure)
        invariant forall b :: 0 <= b < RADIX_BUCKETS ==> offsets[b] == |Filter(s[..index], pass, b)|
      {
        ok := ChargeOwner(1);
        if !ok {
          return;
        }
        var bucket := Digit(from[index].encodedOffset, pass);
        forall b | 0 <= b < RADIX_BUCKETS
          ensures |Filter(s[..index + 1], pass, b)| == |Filter(s[..index], pass, b)| + (if b == bucket then 1 else 0)
        {
          FilterPrefixStep(s, index, pass, b);
        }
        offsets[bucket] := offsets[bucket] + 1;
      }
      assert s[..from.Length] == s;
      ok := true;
    }

    /** Bucket sizes become bucket starts. */
    method StartBuckets(ghost starts: seq<nat>, offsets: array<nat>)
      requires offsets.Length == RADIX_BUCKETS && |starts| == RADIX_BUCKETS + 1 && starts[0] == 0
      requires forall b :: 0 <= b < RADIX_BUCKETS ==> starts[b] + offsets[b] == starts[b + 1]
      modifies offsets
      ensures forall b :: 0 <= b < RADIX_BUCKETS ==> offsets[b] == starts[b]
    {
      var start := 0;
      for bucket := 0 to RADIX_BUCKETS
        invariant start == starts[bucket]
        invariant forall b :: 0 <= b < bucket ==> offsets[b] == starts[b]
        invariant forall b :: bucket <= b < RADIX_BUCKETS ==> offsets[b] == old(offsets[b])
      {
        var count := offsets[bucket];
        offsets[bucket] := start;
        start := start + count;
      }
    }

    method ScatterRequests(from: array<NameRequest>, destination: array<NameRequest>, pass: nat, offsets: array<nat>)
      returns (ok: bool)
      requires workUsed <= maxWork && pass < RADIX_PASSES && offsets.Length == RADIX_BUCKETS
      requires from != destination && from.Length == destination.Length
      requires Scattered(destination[..], offsets[..], from[..], 0, pass)
      modifies this`workUsed, this`failure, destination, offsets
      ensures workUsed <= maxWork
      ensures ok <==> old(workUsed) + from.Length <= maxWork
      ensures ok ==> workUsed == old(workUsed) + from.Length && failure == old(failure)
      ensures ok ==> Scattered(destination[..], offsets[..], from[..], from.Length, pass)
      ensures !ok ==> failure.status == LimitExceeded(WorkLimit)
    {
      ghost var s := from[..];
      for index := 0 to from.Length
        invariant from[..] == s && failure == old(failure)
        invariant workUsed == old(workUsed) + index <= maxWork
        invariant Scattered(destination[..], offsets[..], s, index, pass)
      {
        ok := ChargeOwner(1);
        if !ok {
          return;
        }
        var bucket := Digit(from[index].encodedOffset, pass);
        ghost var dest, offs := destination[..], offsets[..];
        ScatterStep(dest, offs, s, index, pass);
        destination[offsets[bucket]] := from[index];
        offsets[bucket] := offsets[bucket] + 1;
        assert destination[..] == dest[offs[bucket] := s[index]] && offsets[..] == offs[bucket := offs[bucket] + 1];
      }
      ok := true;
    }

    /** One stable counting pass by byte `pass` of the offset. */
    method RadixPass(from: array<NameRequest>, destination: array<NameRequest>, pass: nat) returns (ok: bool)
      requires workUsed <= maxWork && pass < RADIX_PASSES
      requires from != destination && from.Length == destination.Length
      modifies this`workUsed, this`failure, destination
      ensures workUsed <= maxWork
      ensures ok <==> old(workUsed) + 2 * RADIX_BUCKETS + 2 * from.Length <= maxWork
      ensures ok ==> workUsed == old(workUsed) + 2 * RADIX_BUCKETS + 2 * from.Length && failure == old(failure)
      ensures ok ==> destination[..] == Gather(from[..], pass, RADIX_BUCKETS)
      ensures !ok ==> failure.status == LimitExceeded(WorkLimit)
    {
      ok := ChargeOwner(2 * RADIX_BUCKETS);
      if !ok {
        return;
      }
      var offsets := new nat[RADIX_BUCKETS](i => 0);
      ok := CountBuckets(from, pass, offsets);
      if !ok {
        return;
      }
      ghost var s := from[..];
      StartBuckets(seq(RADIX_BUCKETS + 1, b requires 0 <= b => |Gather(s, pass, b)|), offsets);
      forall b | 0 <= b < RADIX_BUCKETS
        ensures BucketFilled(destination[..], offsets[b], s, 0, pass, b)
      {
        EmptyScatter(destination[..], s, pass, b);
      }
      ok := ScatterRequests(from, destination, pass, offsets);
      if ok {
        ScatteredIsGather(destination[..], offsets[..], s, pass, RADIX_BUCKETS);
        GatherIsComplete(s, pass);
        assert destination[..][..|s|] == destination[..];
      }
    }

    lemma RequestsStartInSlotOrder()
      requires Shape() && Decoded(source.count)
      ensures forall k :: 0 <= k < requests.Length ==> requests[k] == NameRequest(source.OffsetAt(k), k)
      ensures Ordered(requests[..], 0)
    {
      forall k | 0 <= k < requests.Length
        ensures requests[k] == NameRequest(source.OffsetAt(k), k)
      {
        assert NodeDecoded(k / NAMES_PER_NODE);
        assert k == NAMES_PER_NODE * (k / NAMES_PER_NODE) || k == NAMES_PER_NODE * (k / NAMES_PER_NODE) + 1;
      }
    }

    /** Four stable passes leave the requests sorted in the scratch half they started in. */
    method SortNameRequests() returns (ok: bool)
      requires Valid() && Decoded(source.count)
      modifies this`workUsed, this`failure, requests, sorted
      ensures Valid()
      ensures ok <==> old(workUsed) + SortCost(source.count) <= maxWork
      ensures ok ==> workUsed == old(workUsed) + SortCost(source.count) && failure == old(failure)
      ensures ok ==> Ordered(requests[..], RADIX_PASSES)
      ensures ok ==> forall r :: r in requests[..] <==> r in old(requests[..])
      ensures !ok ==> failure.status == LimitExceeded(WorkLimit)
    {
      var from, destination := requests, sorted;
      ghost var original := requests[..];
      RequestsStartInSlotOrder();
      for pass := 0 to RADIX_PASSES
        invariant Valid() && failure == old(failure)
        invariant workUsed == old(workUsed) + PassesCost(pass, source.count)
        invariant pass == 0 || pass == 2 || pass == 4 ==> from == requests && destination == sorted
        invariant pass == 1 || pass == 3 ==> from == sorted && destination == requests
        invariant Ordered(from[..], pass)
        invariant forall r :: r in from[..] <==> r in original
      {
        ghost var s := from[..];
        PassesCostGrows(pass + 1, RADIX_PASSES, source.count);
        ok := RadixPass(from, destination, pass);
        if !ok {
          return;
        }
        GatherOrders(s, pass, RADIX_BUCKETS);
        from, destination := destination, from;
      }
      ok := from == requests;
    }

    // ----- Names: one merge scan per string table -----

    function RequestErrorOffset(request: NameRequest, isCommon: bool): nat
      requires Shape() && request.slot / NAMES_PER_NODE < source.count
      reads this`nodes, this`requests, this`sorted, nodes
    {
      if isCommon then TableOffset(request.encodedOffset)
      else nodes[request.slot / NAMES_PER_NODE].record.offset + (if request.slot % NAMES_PER_NODE == 0 then 4 else 8)
    }

    method ResolveRequest(request: NameRequest, isCommon: bool, start: nat, end: nat, terminated: bool)
      returns (ok: bool)
      requires Valid() && request.slot < NAMES_PER_NODE * source.count
      requires start < end <= |source.Table(isCommon)|
      modifies this`workUsed, this`failure, nodes
      ensures Valid()
      ensures ok <==> old(workUsed) + 1 <= maxWork && TableOffset(request.encodedOffset) == start && terminated
      ensures ok ==> workUsed == old(workUsed) + 1 && failure == old(failure)
      ensures var k := request.slot / NAMES_PER_NODE;
              ok ==> nodes[k] == WithName(old(nodes[k]), request.slot,
                                          Resolved(if isCommon then CommonSpace else FileSpace, request.encodedOffset,
                                                   source.Table(isCommon)[start..end - 1],
                                                   source.TableOrigin(isCommon) + start))
      ensures forall j :: 0 <= j < nodes.Length && (!ok || j != request.slot / NAMES_PER_NODE) ==>
        nodes[j] == old(nodes[j])
      ensures SameTree(old(nodes[..]), nodes[..])
      ensures !ok ==> NameFailure(failure.status)
      ensures !ok && TableOffset(request.encodedOffset) == start && terminated ==>
                failure.status == LimitExceeded(WorkLimit)
    {
      var ordinal := request.slot / NAMES_PER_NODE;
      var offset, field := TableOffset(request.encodedOffset), RequestField(request);
      var space := if isCommon then CommonSpace else FileSpace;
      var errorOffset := RequestErrorOffset(request, isCommon);
      ok := Charge(1, field, ordinal, space, errorOffset);
      if !ok {
        return;
      }
      if offset != start {
        Reject(InvalidStringOffset, field, ordinal, space, errorOffset);
        return false;
      }
      if !terminated {
        Reject(UnterminatedString, TerminatorField, ordinal, space, source.TableOrigin(isCommon) + end);
        return false;
      }
      nodes[ordinal] := WithName(nodes[ordinal], request.slot,
                                 Resolved(space, request.encodedOffset, source.Table(isCommon)[start..end - 1],
                                          source.TableOrigin(isCommon) + start));
    }

    /** The segment [start, end) of a table: a string with its terminator, or the unterminated rest. */
    ghost predicate Segment(isCommon: bool, start: nat, end: nat) {
      var table := source.Table(isCommon);
      && start < end <= |table|
      && (start == 0 || table[start - 1] == 0)
      && (forall k :: start <= k < end - 1 ==> table[k] != 0)
      && (table[end - 1] == 0 || end == |table|)
    }

    /** The requests [first, last) are those of one table. */
    ghost predicate TableRequests(isCommon: bool, first: nat, last: nat)
      requires Shape()
      reads this`nodes, this`requests, this`sorted, requests
    {
      && first <= last <= requests.Length
      && (forall i :: first <= i < last ==> IsCommon(requests[i].encodedOffset) == isCommon)
      && (last < requests.Length ==> IsCommon(requests[last].encodedOffset) != isCommon)
    }

    /** Some request in [first, last) has no string under the naive resolution. */
    ghost predicate Unresolvable(s: seq<NameRequest>, first: nat, last: nat)
      requires last <= |s|
    {
      exists i :: first <= i < last && source.ResolveName(s[i].encodedOffset).None?
    }

    /** Serve one request whose offset lies in a segment. */
    method ServeRequest(isCommon: bool, start: nat, end: nat, i: nat) returns (ok: bool)
      requires Valid() && Segment(isCommon, start, end) && Scannable(source, requests[..])
      requires i < requests.Length && Named(source, nodes[..], requests[..], i)
      requires IsCommon(requests[i].encodedOffset) == isCommon
      requires start <= TableOffset(requests[i].encodedOffset) < end
      modifies this`workUsed, this`failure, nodes
      ensures Valid() && SameTree(old(nodes[..]), nodes[..])
      ensures ok <==> old(workUsed) + 1 <= maxWork && source.ResolveName(requests[i].encodedOffset).Some?
      ensures ok ==> Named(source, nodes[..], requests[..], i + 1)
      ensures ok ==> workUsed == old(workUsed) + 1 && failure == old(failure)
      ensures !ok ==> NameFailure(failure.status)
      ensures !ok && source.ResolveName(requests[i].encodedOffset).Some? ==> failure.status == LimitExceeded(WorkLimit)
    {
      var request := requests[i];
      assert Genuine(source, requests[..][i]);
      ResolveInSegment(source.Table(isCommon), start, end, TableOffset(request.encodedOffset));
      ghost var before := nodes[..];
      ok := ResolveRequest(request, isCommon, start, end, source.Table(isCommon)[end - 1] == 0);
      if ok {
        ghost var k := request.slot / NAMES_PER_NODE;
        assert nodes[k] == WithName(before[k], request.slot, source.Name(request.encodedOffset));
        assert nodes[..] == before[k := WithName(before[k], request.slot, source.Name(request.encodedOffset))];
        NamedStep(source, before, requests[..], i);
      }
    }

    /** Serve the requests that point into one segment. */
    method ResolveSegment(isCommon: bool, start: nat, end: nat, from: nat, ghost last: nat)
      returns (ok: bool, next: nat)
      requires Valid() && Segment(isCommon, start, end) && Scannable(source, requests[..])
      requires TableRequests(isCommon, from, last) && Named(source, nodes[..], requests[..], from)
      requires from < last ==> start <= TableOffset(requests[from].encodedOffset)
      modifies this`workUsed, this`failure, nodes
      ensures Valid() && SameTree(old(nodes[..]), nodes[..])
      ensures ok ==> from <= next <= last && Named(source, nodes[..], requests[..], next)
      ensures ok ==> next < last ==> end <= TableOffset(requests[next].encodedOffset)
      ensures ok ==> workUsed == old(workUsed) + (next - from) && failure == old(failure)
      ensures !ok ==> NameFailure(failure.status)
      ensures !ok ==> failure.status == LimitExceeded(WorkLimit) || Unresolvable(requests[..], from, last)
      ensures !ok ==> Unresolvable(requests[..], from, last) || old(workUsed) + (last - from) > maxWork
    {
      next := from;
      ghost var s := requests[..];
      while next < requests.Length
        invariant Valid() && from <= next <= last && SameTree(old(nodes[..]), nodes[..])
        invariant requests[..] == s && Named(source, nodes[..], s, next)
        invariant next < last ==> start <= TableOffset(s[next].encodedOffset)
        invariant workUsed == old(workUsed) + (next - from) && failure == old(failure)
      {
        if IsCommon(requests[next].encodedOffset) != isCommon || TableOffset(requests[next].encodedOffset) >= end {
          break;
        }
        ghost var before := nodes[..];
        assert next < last;
        ok := ServeRequest(isCommon, start, end, next);
        SameTreeIsTransitive(old(nodes[..]), before, nodes[..]);
        if !ok {
          assert source.ResolveName(s[next].encodedOffset).Some? || Unresolvable(s, from, last);
          return;
        }
        next := next + 1;
        if next < last {
          assert StepsUp(s, next);
        }
      }
      ok := true;
    }

    /** A request beyond its whole table is charged like any other, then refused. */
    method RejectPastTheEnd(isCommon: bool, i: nat) returns (ok: bool)
      requires Valid() && Scannable(source, requests[..]) && i < requests.Length
      modifies this`workUsed, this`failure
      ensures Valid() && !ok && NameFailure(failure.status)
    {
      var request := requests[i];
      assert Genuine(source, requests[..][i]);
      var errorOffset := RequestErrorOffset(request, isCommon);
      ok := Charge(1, RequestField(request), request.slot / NAMES_PER_NODE,
                   if isCommon then CommonSpace else FileSpace, errorOffset);
      if ok {
        Reject(InvalidStringOffset, RequestField(request), request.slot / NAMES_PER_NODE,
               if isCommon then CommonSpace else FileSpace, errorOffset);
      }
      ok := false;
    }

    /** Scan one whole string table, serving its requests in order. */
    method ResolveTable(isCommon: bool, from: nat, ghost last: nat) returns (ok: bool, next: nat)
      requires Valid() && Scannable(source, requests[..])
      requires TableRequests(isCommon, from, last) && Named(source, nodes[..], requests[..], from)
      modifies this`workUsed, this`failure, nodes
      ensures Valid() && SameTree(old(nodes[..]), nodes[..])
      ensures ok ==> next == last && Named(source, nodes[..], requests[..], last)
      ensures ok ==> workUsed == old(workUsed) + |source.Table(isCommon)| + (last - from) && failure == old(failure)
      ensures !ok ==> NameFailure(failure.status)
      ensures !ok ==> failure.status == LimitExceeded(WorkLimit) || Unresolvable(requests[..], from, last)
      ensures !ok ==> Unresolvable(requests[..], from, last)
                      || old(workUsed) + |source.Table(isCommon)| + (last - from) > maxWork
    {
      var table, space := source.Table(isCommon), if isCommon then CommonSpace else FileSpace;
      var start := 0;
      next := from;
      for cursor := 0 to |table|
        invariant Valid() && from <= next <= last && SameTree(old(nodes[..]), nodes[..])
        invariant Named(source, nodes[..], requests[..], next)
        invariant start <= cursor && (start == 0 || table[start - 1] == 0 || cursor == |table|)
        invariant forall k :: start <= k < cursor ==> table[k] != 0
        invariant cursor == |table| ==> start == cursor
        invariant next < last ==> start <= TableOffset(requests[next].encodedOffset)
        invariant workUsed == old(workUsed) + cursor + (next - from) && failure == old(failure)
      {
        ok := Charge(1, TerminatorField, ABSENT, space, source.TableOrigin(isCommon) + cursor);
        if !ok {
          return;
        }
        if table[cursor] == 0 || cursor + 1 == |table| {
          ghost var before, served := nodes[..], next;
          ok, next := ResolveSegment(isCommon, start, cursor + 1, next, last);
          SameTreeIsTransitive(old(nodes[..]), before, nodes[..]);
          if !ok {
            return;
          }
          start := cursor + 1;
        }
      }
      if next < requests.Length && IsCommon(requests[next].encodedOffset) == isCommon {
        assert source.ResolveName(requests[next].encodedOffset).None?;
        ok := RejectPastTheEnd(isCommon, next);
        return false, next;
      }
      ok := true;
    }

    /** Both tables in turn: every name is the naive string, or some name has none. */
    method ResolveNames() returns (ok: bool)
      requires Valid() && Scannable(source, requests[..]) && Complete(source, requests[..])
      modifies this`workUsed, this`failure, nodes
      ensures Valid() && SameTree(old(nodes[..]), nodes[..])
      ensures ok <==> AllResolve(source) && old(workUsed) + NamesCost(source) <= maxWork
      ensures ok ==> workUsed == old(workUsed) + NamesCost(source) && failure == old(failure)
      ensures ok ==> Named(source, nodes[..], requests[..], requests.Length)
      ensures !ok ==> NameFailure(failure.status)
      ensures !ok && AllResolve(source) ==> failure.status == LimitExceeded(WorkLimit)
    {
      ghost var s := requests[..];
      ghost var middle := FirstCommon(s, 0);
      FirstCommonSplits(s, 0);
      var index;
      ok, index := ResolveTable(false, 0, middle);
      if ok {
        ghost var before := nodes[..];
        ok, index := ResolveTable(true, index, |s|);
        SameTreeIsTransitive(old(nodes[..]), before, nodes[..]);
        ok := ok && index == requests.Length;
      }
      ResolvableRequests(source, s);
      if ok {
        forall i | 0 <= i < |s|
          ensures source.ResolveName(s[i].encodedOffset).Some?
        {
          assert HasName(source, nodes[..], s[i]);
        }
      }
    }

    /** Hierarchy, order, names and the publication charge. */
    method Compile() returns (ok: bool)
      requires Valid() && maximumDepth == 0 && failure == NO_FAILURE
      modifies this`workUsed, this`failure, this`maximumDepth, nodes, requests, sorted
      ensures Valid()
      ensures ok <==> Compilable(source, maxDepth) && old(workUsed) + CompileCost(source) <= maxWork
      ensures ok ==> workUsed == old(workUsed) + CompileCost(source) && failure == NO_FAILURE
      ensures ok ==> nodes[..] == Tree(source) && maximumDepth == MaxLevel(source.Levels())
      ensures !ok ==> CompileFailure(source, maxDepth, failure)
    {
      ok := CompileNodes();
      if !ok {
        return;
      }
      RequestsStartInSlotOrder();
      ghost var original, linked := requests[..], nodes[..];
      forall i | 0 <= i < source.count
        ensures linked[i].record == source.Records()[i] && linked[i].links == LinksOf(source.Levels(), i)
      {
        assert NodeDecoded(i);
      }
      ok := SortNameRequests();
      if !ok {
        return;
      }
      SortedRequestsAreScannable(source, original, requests[..]);
      ok := ResolveNames();
      if !ok {
        return;
      }
      NamedTreeIsTheTree(source, linked, nodes[..], requests[..]);
      ok := ChargeOwner(1);
    }
  }

  function RequestField(request: NameRequest): Field {
    if request.slot % NAMES_PER_NODE == 0 then TypeOffsetField else NameOffsetField
  }

  function NameIn(node: SchemaNode, slot: nat): SchemaString {
    if slot % NAMES_PER_NODE == 0 then node.typeName else node.fieldName
  }

  function WithName(node: SchemaNode, slot: nat, name: SchemaString): SchemaNode {
    if slot % NAMES_PER_NODE == 0 then node.(typeName := name) else node.(fieldName := name)
  }

  /** Naming changes neither records nor links. */
  predicate SameTree(before: seq<SchemaNode>, after: seq<SchemaNode>) {
    |before| == |after|
    && forall i :: 0 <= i < |before| ==> after[i].record == before[i].record && after[i].links == before[i].links
  }

  /** A request carries the offset its node stores for its slot. */
  predicate Genuine(source: Source, r: NameRequest)
    requires source.Valid()
  {
    r.slot < NAMES_PER_NODE * source.count && r.encodedOffset == source.OffsetAt(r.slot)
  }

  predicate AllGenuine(source: Source, s: seq<NameRequest>)
    requires source.Valid()
  {
    forall i {:trigger Genuine(source, s[i])} :: 0 <= i < |s| ==> Genuine(source, s[i])
  }

  predicate StepsUp(s: seq<NameRequest>, i: nat)
    requires 0 < i < |s|
  {
    s[i - 1].encodedOffset <= s[i].encodedOffset
  }

  predicate Ascending(s: seq<NameRequest>) {
    forall i {:trigger StepsUp(s, i)} :: 0 < i < |s| ==> StepsUp(s, i)
  }

  /** Requests fit for the merge scan: genuine and in offset order. */
  predicate Scannable(source: Source, s: seq<NameRequest>)
    requires source.Valid()
  {
    AllGenuine(source, s) && Ascending(s)
  }

  /** Every slot has its request. */
  predicate Complete(source: Source, s: seq<NameRequest>)
    requires source.Valid()
  {
    forall slot :: 0 <= slot < NAMES_PER_NODE * source.count ==> NameRequest(source.OffsetAt(slot), slot) in s
  }

  lemma OrderedIsAscending(s: seq<NameRequest>)
    requires Ordered(s, RADIX_PASSES)
    ensures Ascending(s)
  {
    forall i | 0 < i < |s|
      ensures StepsUp(s, i)
    {
      assert Before(s[i - 1], s[i], RADIX_PASSES);
    }
  }

  /** A request's node carries the string its offset naively resolves to. */
  predicate HasName(source: Source, nodes: seq<SchemaNode>, r: NameRequest)
    requires source.Valid()
  {
    && Genuine(source, r) && r.slot / NAMES_PER_NODE < |nodes|
    && source.ResolveName(r.encodedOffset).Some?
    && NameIn(nodes[r.slot / NAMES_PER_NODE], r.slot) == source.Name(r.encodedOffset)
  }

  predicate Named(source: Source, nodes: seq<SchemaNode>, s: seq<NameRequest>, n: nat)
    requires source.Valid() && n <= |s|
  {
    forall i {:trigger HasName(source, nodes, s[i])} :: 0 <= i < n ==> HasName(source, nodes, s[i])
  }

  lemma NamedStep(source: Source, nodes: seq<SchemaNode>, s: seq<NameRequest>, n: nat)
    requires source.Valid() && |nodes| == source.count && n < |s| && Named(source, nodes, s, n)
    requires Genuine(source, s[n]) && source.ResolveName(s[n].encodedOffset).Some?
    ensures var k := s[n].slot / NAMES_PER_NODE;
            Named(source, nodes[k := WithName(nodes[k], s[n].slot, source.Name(s[n].encodedOffset))], s, n + 1)
  {
    var k := s[n].slot / NAMES_PER_NODE;
    var after := nodes[k := WithName(nodes[k], s[n].slot, source.Name(s[n].encodedOffset))];
    forall i | 0 <= i <= n
      ensures HasName(source, after, s[i])
    {
      if i < n {
        assert HasName(source, nodes, s[i]);
      }
    }
  }

  lemma SameTreeIsTransitive(a: seq<SchemaNode>, b: seq<SchemaNode>, c: seq<SchemaNode>)
    requires SameTree(a, b) && SameTree(b, c)
    ensures SameTree(a, c)
  {
  }

  /** The position of the first common-table request. */
  function FirstCommon(s: seq<NameRequest>, i: nat): (r: nat)
    requires i <= |s|
    ensures i <= r <= |s|
    decreases |s| - i
  {
    if i < |s| && !IsCommon(s[i].encodedOffset) then FirstCommon(s, i + 1) else i
  }

  lemma {:induction false} AscendingOffsets(s: seq<NameRequest>, i: nat, j: nat)
    requires Ascending(s) && i < j < |s|
    ensures s[i].encodedOffset <= s[j].encodedOffset
  {
    assert StepsUp(s, j);
    if i < j - 1 {
      AscendingOffsets(s, i, j - 1);
    }
  }

  lemma {:induction false} FirstCommonSplits(s: seq<NameRequest>, i: nat)
    requires i <= |s| && Ascending(s)
    ensures var m := FirstCommon(s, i);
            && (forall k :: i <= k < m ==> !IsCommon(s[k].encodedOffset))
            && (forall k :: m <= k < |s| ==> IsCommon(s[k].encodedOffset))
    decreases |s| - i
  {
    if i < |s| && !IsCommon(s[i].encodedOffset) {
      FirstCommonSplits(s, i + 1);
    } else {
      forall k | i < k < |s|
        ensures s[i].encodedOffset <= s[k].encodedOffset
      {
        AscendingOffsets(s, i, k);
      }
    }
  }

  /** Every type and field name offset has a string under the naive resolution. */
  predicate AllResolve(source: Source)
    requires source.Valid()
  {
    forall slot :: 0 <= slot < NAMES_PER_NODE * source.count ==> source.ResolveName(source.OffsetAt(slot)).Some?
  }

  function NamesCost(source: Source): nat {
    |source.local| + |source.common| + NAMES_PER_NODE * source.count
  }

  lemma ResolvableRequests(source: Source, s: seq<NameRequest>)
    requires source.Valid() && AllGenuine(source, s) && Complete(source, s)
    ensures AllResolve(source) <==> forall i :: 0 <= i < |s| ==> source.ResolveName(s[i].encodedOffset).Some?
  {
    if forall i :: 0 <= i < |s| ==> source.ResolveName(s[i].encodedOffset).Some? {
      forall slot | 0 <= slot < NAMES_PER_NODE * source.count
        ensures source.ResolveName(source.OffsetAt(slot)).Some?
      {
        assert NameRequest(source.OffsetAt(slot), slot) in s;
      }
    }
    forall i | 0 <= i < |s|
      ensures s[i].slot < NAMES_PER_NODE * source.count && s[i].encodedOffset == source.OffsetAt(s[i].slot)
    {
      assert Genuine(source, s[i]);
    }
  }

  predicate NameFailure(status: Status) {
    status == InvalidStringOffset || status == UnterminatedString || status == LimitExceeded(WorkLimit)
  }

  function PassesCost(passes: nat, nodeCount: nat): nat {
    if passes == 0 then 0
    else PassesCost(passes - 1, nodeCount) + 2 * RADIX_BUCKETS + 2 * (NAMES_PER_NODE * nodeCount)
  }

  function SortCost(nodeCount: nat): nat {
    PassesCost(RADIX_PASSES, nodeCount)
  }

  lemma {:induction false} PassesCostGrows(passes: nat, more: nat, nodeCount: nat)
    requires passes <= more
    ensures PassesCost(passes, nodeCount) <= PassesCost(more, nodeCount)
  {
    if passes < more {
      PassesCostGrows(passes, more - 1, nodeCount);
    }
  }

  function Max(a: nat, b: nat): nat {
    if a < b then b else a
  }

  predicate WithinDepth(levels: seq<nat>, n: nat, maxDepth: nat)
    requires n <= |levels|
  {
    forall i :: 0 <= i < n ==> levels[i] <= maxDepth
  }

  /** Zero for no levels at all. */
  function MaxLevel(levels: seq<nat>): nat {
    if levels == [] then 0 else Max(MaxLevel(levels[..|levels| - 1]), levels[|levels| - 1])
  }

  lemma PrefixStep(levels: seq<nat>, n: nat, maxDepth: nat)
    requires n < |levels| && LegalPrefix(levels, n) && WithinDepth(levels, n, maxDepth)
    requires LegalAt(levels, n) && levels[n] <= maxDepth
    ensures LegalPrefix(levels, n + 1) && WithinDepth(levels, n + 1, maxDepth)
  {
  }

  lemma MaxLevelStep(levels: seq<nat>, n: nat)
    requires n < |levels|
    ensures MaxLevel(levels[..n + 1]) == Max(MaxLevel(levels[..n]), levels[n])
  {
    assert levels[..n + 1][..n] == levels[..n];
  }

  predicate NodeFailure(levels: seq<nat>, maxDepth: nat, ordinal: nat, failure: Diagnostic)
    requires ordinal < |levels|
  {
    || failure.status == LimitExceeded(WorkLimit)
    || (&& failure.node == ordinal
        && if !LegalAt(levels, ordinal) then failure.status == MalformedHierarchy
           else failure.status == LimitExceeded(DepthLimit) && levels[ordinal] > maxDepth)
  }

  /** The hierarchy pass fails on work, or names the first node that is illegal or too deep. */
  predicate HierarchyFailure(levels: seq<nat>, maxDepth: nat, failure: Diagnostic) {
    || failure.status == LimitExceeded(WorkLimit)
    || (&& failure.node < |levels| && LegalPrefix(levels, failure.node) && WithinDepth(levels, failure.node, maxDepth)
        && if !LegalAt(levels, failure.node) then failure.status == MalformedHierarchy
           else failure.status == LimitExceeded(DepthLimit) && levels[failure.node] > maxDepth)
  }

  // ----- The compiled tree, written without the compiler -----

  predicate Compilable(source: Source, maxDepth: nat)
    requires source.Valid()
  {
    Legal(source.Levels()) && WithinDepth(source.Levels(), source.count, maxDepth) && AllResolve(source)
  }

  /** Work apart, the first illegal or too deep node is named, or there is a name that does not resolve. */
  predicate CompileFailure(source: Source, maxDepth: nat, failure: Diagnostic)
    requires source.Valid()
  {
    failure.status == LimitExceeded(WorkLimit)
    || if Legal(source.Levels()) && WithinDepth(source.Levels(), source.count, maxDepth)
       then !AllResolve(source) && NameFailure(failure.status)
       else HierarchyFailure(source.Levels(), maxDepth, failure)
  }

  /** Node `i` as the record, the preorder links and the naively resolved names. */
  function TreeNode(source: Source, i: nat): SchemaNode
    requires source.Valid() && i < source.count
  {
    SchemaNode(source.Records()[i], LinksOf(source.Levels(), i),
               source.Name(source.OffsetAt(NAMES_PER_NODE * i)), source.Name(source.OffsetAt(NAMES_PER_NODE * i + 1)))
  }

  function Tree(source: Source): (r: seq<SchemaNode>)
    requires source.Valid()
    ensures |r| == source.count
  {
    seq(source.count, i requires 0 <= i < source.count => TreeNode(source, i))
  }

  lemma SortedRequestsAreScannable(source: Source, original: seq<NameRequest>, s: seq<NameRequest>)
    requires source.Valid() && |original| == NAMES_PER_NODE * source.count
    requires forall k :: 0 <= k < |original| ==> original[k] == NameRequest(source.OffsetAt(k), k)
    requires Ordered(s, RADIX_PASSES) && forall r :: r in s <==> r in original
    ensures Scannable(source, s) && Complete(source, s)
  {
    OrderedIsAscending(s);
    forall i | 0 <= i < |s|
      ensures Genuine(source, s[i])
    {
      assert s[i] in original;
    }
    forall slot | 0 <= slot < NAMES_PER_NODE * source.count
      ensures NameRequest(source.OffsetAt(slot), slot) in s
    {
      assert original[slot] in original;
    }
  }

  lemma NamedTreeIsTheTree(source: Source, linked: seq<SchemaNode>, nodes: seq<SchemaNode>, s: seq<NameRequest>)
    requires source.Valid() && |linked| == source.count && SameTree(linked, nodes)
    requires forall i :: 0 <= i < source.count ==>
               linked[i].record == source.Records()[i] && linked[i].links == LinksOf(source.Levels(), i)
    requires Complete(source, s) && Named(source, nodes, s, |s|)
    ensures nodes == Tree(source)
  {
    forall i | 0 <= i < source.count
      ensures nodes[i] == TreeNode(source, i)
    {
      assert nodes[i].record == linked[i].record && nodes[i].links == linked[i].links;
      NamedNodeIsTheNode(source, nodes, s, i);
    }
  }

  lemma NamedNodeIsTheNode(source: Source, nodes: seq<SchemaNode>, s: seq<NameRequest>, i: nat)
    requires source.Valid() && |nodes| == source.count && i < source.count
    requires Complete(source, s) && Named(source, nodes, s, |s|)
    requires nodes[i].record == source.Records()[i] && nodes[i].links == LinksOf(source.Levels(), i)
    ensures nodes[i] == TreeNode(source, i)
  {
    SlotIsNamed(source, nodes, s, NAMES_PER_NODE * i);
    SlotIsNamed(source, nodes, s, NAMES_PER_NODE * i + 1);
    FieldsMakeTheNode(source, nodes[i], i);
  }

  lemma FieldsMakeTheNode(source: Source, node: SchemaNode, i: nat)
    requires source.Valid() && i < source.count
    requires node.record == source.Records()[i] && node.links == LinksOf(source.Levels(), i)
    requires NameIn(node, NAMES_PER_NODE * i) == source.Name(source.OffsetAt(NAMES_PER_NODE * i))
    requires NameIn(node, NAMES_PER_NODE * i + 1) == source.Name(source.OffsetAt(NAMES_PER_NODE * i + 1))
    ensures node == TreeNode(source, i)
  {
  }

  lemma SlotIsNamed(source: Source, nodes: seq<SchemaNode>, s: seq<NameRequest>, slot: nat)
    requires source.Valid() && slot < NAMES_PER_NODE * source.count
    requires Complete(source, s) && Named(source, nodes, s, |s|)
    ensures slot / NAMES_PER_NODE < |nodes|
    ensures NameIn(nodes[slot / NAMES_PER_NODE], slot) == source.Name(source.OffsetAt(slot))
  {
    var i :| 0 <= i < |s| && s[i] == NameRequest(source.OffsetAt(slot), slot);
    assert HasName(source, nodes, s[i]);
  }

  function CompileCost(source: Source): nat {
    (NODE_BYTES + 2) * source.count + SortCost(source.count) + NamesCost(source) + 1
  }

  lemma CompileCostIsLinear(source: Source)
    ensures CompileCost(source) == 52 * source.count + |source.local| + |source.common| + 2049
  {
    var n := source.count;
    assert PassesCost(1, n) == 512 + 4 * n;
    assert PassesCost(2, n) == 1024 + 8 * n;
    assert PassesCost(3, n) == 1536 + 12 * n;
    assert PassesCost(4, n) == 2048 + 16 * n;
  }
}
