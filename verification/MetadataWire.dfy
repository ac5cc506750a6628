/** The parts of metadata rows against their bytes: each read succeeds exactly where the bytes spell its value within
    the limits, and then with that value (src/io/serialized_metadata_reader_internal.c). */
module MetadataWire {
  import opened Bytes
  import opened WireWords
  import opened MetadataReader

  // ----- What the bytes say -----

  /** The bytes from `start` to `end` may be read: they are metadata, they are mapped, and within the byte budget. */
  predicate Within(input: Input, start: nat, end: nat) {
    && input.origin <= start <= end
    && end <= input.metadataEnd && end <= |input.bytes| && end - input.origin <= input.maxBytes
  }

  predicate WordSpelled(input: Input, offset: nat, word: Word) {
    && word.source == Span(offset, 4) && offset + 4 <= |input.bytes|
    && input.bytes[offset..offset + 4] == Spelled(word.bits, 4, input.bigEndian)
  }

  predicate WordReads(input: Input, at: At, word: Word, next: At) {
    && WordSpelled(input, at.position, word) && Within(input, at.position, at.position + 4)
    && next == at.(position := at.position + 4)
  }

  /** A script hash is there for class 114 and for every script index that is not negative; class -1 with a negative
      one has no known shape. */
  predicate ShapeFits(classBits: u32, scriptBits: u16, hasHash: bool) {
    && !(classBits == 0xFFFF_FFFF && scriptBits >= 0x8000)
    && (hasHash <==> classBits == 114 || scriptBits < 0x8000)
  }

  predicate PrefixSpelled(input: Input, offset: nat, p: TypePrefix) {
    && WordSpelled(input, offset, p.classId) && offset + 7 <= |input.bytes|
    && p.stripped == Span(offset + 4, 1) && p.scriptIndex == Span(offset + 5, 2)
    && input.bytes[offset + 4] == p.strippedRaw
    && input.bytes[offset + 5..offset + 7] == Spelled(p.scriptBits, 2, input.bigEndian)
    && ShapeFits(p.classId.bits, p.scriptBits, p.scriptHash.Some?)
    && (p.scriptHash.Some? ==> p.scriptHash.value == Span(offset + 7, 16))
    && p.typeHash == Span(if p.scriptHash.Some? then offset + 23 else offset + 7, 16)
  }

  function PrefixSize(p: TypePrefix): nat {
    if p.scriptHash.Some? then 39 else 23
  }

  predicate PrefixReads(input: Input, at: At, p: TypePrefix, next: At) {
    && PrefixSpelled(input, at.position, p) && Within(input, at.position, at.position + PrefixSize(p))
    && next == at.(position := at.position + PrefixSize(p))
  }

  /** Two counts, then 32 bytes for each node and the string bytes, within the budgets of both. */
  predicate TreeReads(input: Input, limits: TreeLimits, at: At, t: Tree, next: At) {
    var o, n, s := at.position, t.nodeCount.bits, t.stringCount.bits;
    && WordSpelled(input, o, t.nodeCount) && WordSpelled(input, o + 4, t.stringCount)
    && t.nodes == Span(o + 8, 32 * n) && t.strings == Span(o + 8 + 32 * n, s)
    && 0 < n && at.nodes + n <= limits.maxNodes && at.strings + s <= limits.maxStrings
    && Within(input, o, o + 8 + 32 * n + s)
    && next == at.(position := o + 8 + 32 * n + s, nodes := at.nodes + n, strings := at.strings + s)
  }

  function BehindTree(at: At, t: Tree): At {
    at.(position := at.position + 8 + 32 * t.nodeCount.bits + t.stringCount.bits, nodes := at.nodes + t.nodeCount.bits,
        strings := at.strings + t.stringCount.bits)
  }

  /** A string through its terminator, within the budget of terminated bytes. */
  predicate StringReads(input: Input, maxTerminated: u64, at: At, text: Span, next: At) {
    var o := at.position;
    && text == Span(o, text.size) && text.size > 0 && Within(input, o, o + text.size)
    && input.bytes[o + text.size - 1] == 0 && 0 !in input.bytes[o..o + text.size - 1]
    && at.extra + text.size <= maxTerminated
    && next == at.(position := o + text.size, extra := at.extra + text.size)
  }

  /** Padding to the next multiple of four, counted from the end of the 48-byte header. */
  predicate AlignmentFits(position: nat, size: nat) {
    size < 4 && if position < 48 then size == 0 else (position + size - 48) % 4 == 0
  }

  // ----- The reads find exactly that -----

  lemma LongIsSpelled(b: seq<byte>, bigEndian: bool, x: u64)
    requires |b| == 8
    ensures b == Spelled(x, 8, bigEndian) <==> Decode64(b, bigEndian) == x
  {
    Spells64(b, bigEndian);
    PowersOf256();
    if b == Spelled(x, 8, bigEndian) {
      SpelledOnce(x, Decode64(b, bigEndian), 8, bigEndian);
    }
  }

  lemma WordIsSpelledIn(b: seq<byte>, bigEndian: bool, x: u32)
    requires |b| == 4
    ensures b == Spelled(x, 4, bigEndian) <==> Decode32(b, bigEndian) == x
  {
    Spells32(b, bigEndian);
    PowersOf256();
    if b == Spelled(x, 4, bigEndian) {
      SpelledOnce(x, Decode32(b, bigEndian), 4, bigEndian);
    }
  }

  lemma TakesWithin(input: Input, at: At, width: nat)
    ensures Take(input, at, width).Got? <==> Within(input, at.position, at.position + width)
  {
  }

  lemma WordReadsExactly(input: Input, at: At, word: Word, next: At)
    ensures TakeWord(input, at) == Got(word, next) <==> WordReads(input, at, word, next)
  {
    TakesWithin(input, at, 4);
    if Take(input, at, 4).Got? {
      var b := input.bytes[at.position..at.position + 4];
      Spells32(b, input.bigEndian);
      PowersOf256();
      if b == Spelled(word.bits, 4, input.bigEndian) {
        SpelledOnce(word.bits, Decode32(b, input.bigEndian), 4, input.bigEndian);
      }
    }
  }

  lemma AlignmentIsExact(position: nat, size: nat)
    ensures AlignmentFits(position, size) <==> size == PaddingAt(position)
  {
  }

  /** Some word is read exactly where four bytes may be. */
  lemma WordIsRead(input: Input, at: At)
    ensures TakeWord(input, at).Got? <==> Within(input, at.position, at.position + 4)
    ensures TakeWord(input, at).Got? ==> WordReads(input, at, TakeWord(input, at).value, TakeWord(input, at).at)
  {
    TakesWithin(input, at, 4);
    if TakeWord(input, at).Got? {
      WordReadsExactly(input, at, TakeWord(input, at).value, TakeWord(input, at).at);
    }
  }

  lemma HalfIsRead(input: Input, offset: nat, bits: u16)
    requires offset + 2 <= |input.bytes|
    ensures Decode16(input.bytes[offset..offset + 2], input.bigEndian) == bits
            <==> input.bytes[offset..offset + 2] == Spelled(bits, 2, input.bigEndian)
  {
    var b := input.bytes[offset..offset + 2];
    Spells16(b, input.bigEndian);
    PowersOf256();
    if b == Spelled(bits, 2, input.bigEndian) {
      SpelledOnce(bits, Decode16(b, input.bigEndian), 2, input.bigEndian);
    }
  }

  lemma ShapeReads(classBits: u32, scriptBits: u16)
    ensures HashShape(classBits, scriptBits).Some? ==>
              ShapeFits(classBits, scriptBits, HashShape(classBits, scriptBits).value)
    ensures forall hasHash :: ShapeFits(classBits, scriptBits, hasHash) ==>
              HashShape(classBits, scriptBits) == Some(hasHash)
  {
  }

  /** A prefix that is read is spelled. */
  lemma PrefixIsSpelled(input: Input, at: At)
    requires TakeTypePrefix(input, at).Got?
    ensures PrefixReads(input, at, TakeTypePrefix(input, at).value, TakeTypePrefix(input, at).at)
  {
    WordIsRead(input, at);
    var p := TakeTypePrefix(input, at).value;
    HalfIsRead(input, at.position + 5, p.scriptBits);
    ShapeReads(p.classId.bits, p.scriptBits);
  }

  /** A prefix that is spelled is read. */
  lemma SpelledPrefixReads(input: Input, at: At, p: TypePrefix, next: At)
    requires PrefixReads(input, at, p, next)
    ensures TakeTypePrefix(input, at) == Got(p, next)
  {
    var at1 := at.(position := at.position + 4);
    WordReadsExactly(input, at, p.classId, at1);
    HalfIsRead(input, at.position + 5, p.scriptBits);
    ShapeReads(p.classId.bits, p.scriptBits);
    assert Content(input, p.stripped) == [p.strippedRaw];
  }

  lemma PrefixReadsExactly(input: Input, at: At, p: TypePrefix, next: At)
    ensures TakeTypePrefix(input, at) == Got(p, next) <==> PrefixReads(input, at, p, next)
  {
    if TakeTypePrefix(input, at) == Got(p, next) {
      PrefixIsSpelled(input, at);
    }
    if PrefixReads(input, at, p, next) {
      SpelledPrefixReads(input, at, p, next);
    }
  }

  lemma TreeIsSpelled(input: Input, limits: TreeLimits, at: At)
    requires TakeTree(input, limits, at).Got?
    ensures TreeReads(input, limits, at, TakeTree(input, limits, at).value, TakeTree(input, limits, at).at)
  {
    WordIsRead(input, at);
    var nodeCount := TakeWord(input, at).value;
    WordIsRead(input, at.(position := at.position + 4, nodes := at.nodes + nodeCount.bits));
  }

  lemma SpelledTreeReads(input: Input, limits: TreeLimits, at: At, t: Tree, next: At)
    requires TreeReads(input, limits, at, t, next)
    ensures TakeTree(input, limits, at) == Got(t, next)
  {
    var at1 := at.(position := at.position + 4);
    WordReadsExactly(input, at, t.nodeCount, at1);
    var at2 := at1.(nodes := at.nodes + t.nodeCount.bits);
    WordReadsExactly(input, at2, t.stringCount, at2.(position := at.position + 8));
  }

  lemma TreeReadsExactly(input: Input, limits: TreeLimits, at: At, t: Tree, next: At)
    ensures TakeTree(input, limits, at) == Got(t, next) <==> TreeReads(input, limits, at, t, next)
  {
    if TakeTree(input, limits, at) == Got(t, next) {
      TreeIsSpelled(input, limits, at);
    }
    if TreeReads(input, limits, at, t, next) {
      SpelledTreeReads(input, limits, at, t, next);
    }
  }

  lemma {:induction false} StringIsTerminated(input: Input, maxTerminated: u64, start: nat, at: At)
    requires start <= at.position && TakeString(input, maxTerminated, start, at).Got?
    ensures var r := TakeString(input, maxTerminated, start, at);
            Within(input, at.position, r.at.position) && r.at.extra <= maxTerminated
    decreases |input.bytes| - at.position
  {
    TakesWithin(input, at, 1);
    if input.bytes[at.position] != 0 {
      StringIsTerminated(input, maxTerminated, start, at.(position := at.position + 1, extra := at.extra + 1));
    }
  }

  lemma {:induction false} TerminatedStringReads(input: Input, maxTerminated: u64, start: nat, at: At, end: nat)
    requires start <= at.position < end && Within(input, at.position, end)
    requires input.bytes[end - 1] == 0 && 0 !in input.bytes[at.position..end - 1]
    requires at.extra + (end - at.position) <= maxTerminated
    ensures TakeString(input, maxTerminated, start, at) ==
      Got(Span(start, end - start), at.(position := end, extra := at.extra + (end - at.position)))
    decreases end - at.position
  {
    if at.position + 1 < end {
      assert input.bytes[at.position] == input.bytes[at.position..end - 1][0];
      assert input.bytes[at.position + 1..end - 1] == input.bytes[at.position..end - 1][1..];
      TerminatedStringReads(input, maxTerminated, start, at.(position := at.position + 1, extra := at.extra + 1), end);
    }
  }

  lemma StringIsSpelled(input: Input, maxTerminated: u64, at: At)
    requires TakeString(input, maxTerminated, at.position, at).Got?
    ensures var r := TakeString(input, maxTerminated, at.position, at);
            StringReads(input, maxTerminated, at, r.value, r.at)
  {
    StringIsTerminated(input, maxTerminated, at.position, at);
  }

  lemma SpelledStringReads(input: Input, maxTerminated: u64, at: At, text: Span, next: At)
    requires StringReads(input, maxTerminated, at, text, next)
    ensures TakeString(input, maxTerminated, at.position, at) == Got(text, next)
  {
    TerminatedStringReads(input, maxTerminated, at.position, at, at.position + text.size);
  }

  lemma StringReadsExactly(input: Input, maxTerminated: u64, at: At, text: Span, next: At)
    ensures TakeString(input, maxTerminated, at.position, at) == Got(text, next)
            <==> StringReads(input, maxTerminated, at, text, next)
  {
    if TakeString(input, maxTerminated, at.position, at) == Got(text, next) {
      StringIsSpelled(input, maxTerminated, at);
    }
    if StringReads(input, maxTerminated, at, text, next) {
      SpelledStringReads(input, maxTerminated, at, text, next);
    }
  }

  // ----- Tables -----

  /** Row after row: each is read where the last one ended, and adds one to the rows completed. */
  ghost predicate RowsRead<R(!new)>(spelled: (At, R, At) -> bool, at: At, rows: seq<Row<R>>, next: At)
    decreases |rows|
  {
    if rows == [] then at == next
    else
      exists m: At {:trigger spelled(at, rows[0].value, m)} ::
        && spelled(at, rows[0].value, m) && at.position <= m.position
        && rows[0].source == Span(at.position, m.position - at.position)
        && RowsRead(spelled, m.(rows := m.rows + 1), rows[1..], next)
  }

  /** A step reads exactly what a relation says. */
  ghost predicate Exactly<R(!new)>(step: Step<R>, spelled: (At, R, At) -> bool) {
    forall at: At, v: R, m: At {:trigger spelled(at, v, m)} :: step(at) == Got(v, m) <==> spelled(at, v, m)
  }

  lemma {:induction false} RowsAreRead<R(!new)>(step: Step<R>, spelled: (At, R, At) -> bool, count: nat, at: At)
    requires Exactly(step, spelled) && Advances(step) && TakeRows(step, count, at).Got?
    ensures RowsRead(spelled, at, TakeRows(step, count, at).value, TakeRows(step, count, at).at)
    ensures |TakeRows(step, count, at).value| == count
    decreases count
  {
    if count > 0 {
      var m := step(at).at;
      var next := m.(rows := m.rows + 1);
      RowsAreRead(step, spelled, count - 1, next);
      var rows, rest := TakeRows(step, count, at).value, TakeRows(step, count - 1, next).value;
      assert rows[1..] == rest && spelled(at, rows[0].value, m);
    }
  }

  lemma {:induction false} ReadRowsAreTaken<R(!new)>(step: Step<R>, spelled: (At, R, At) -> bool, at: At,
                                                     rows: seq<Row<R>>, next: At)
    requires Exactly(step, spelled) && RowsRead(spelled, at, rows, next)
    ensures TakeRows(step, |rows|, at) == Got(rows, next)
    decreases |rows|
  {
    if rows != [] {
      var m: At :| spelled(at, rows[0].value, m) && at.position <= m.position
                   && rows[0].source == Span(at.position, m.position - at.position)
                   && RowsRead(spelled, m.(rows := m.rows + 1), rows[1..], next);
      ReadRowsAreTaken(step, spelled, m.(rows := m.rows + 1), rows[1..], next);
      assert rows == [rows[0]] + rows[1..] && rows[0] == Row(rows[0].value, rows[0].source);
    }
  }

  /** A count that is not negative and not above the maximum, and as many rows. */
  ghost predicate TableReads<R(!new)>(input: Input, spelled: (At, R, At) -> bool, maximum: nat, at: At, table: Table<R>,
                                      next: At)
  {
    var behind := at.(position := at.position + 4);
    && WordReads(input, at, table.count, behind) && table.count.bits <= 0x7FFF_FFFF
    && |table.rows| == table.count.bits <= maximum && RowsRead(spelled, behind, table.rows, next)
  }

  lemma CountReadsExactly(input: Input, at: At, count: Word, next: At)
    ensures TakeCount(input, at) == Got(count, next)
            <==> WordReads(input, at, count, next) && count.bits <= 0x7FFF_FFFF
  {
    WordReadsExactly(input, at, count, next);
  }

  lemma TableReadsExactly<R(!new)>(input: Input, step: Step<R>, spelled: (At, R, At) -> bool, maximum: nat, at: At,
                                   table: Table<R>, next: At)
    requires Exactly(step, spelled) && Advances(step)
    ensures TakeTable(input, step, maximum, at) == Got(table, next)
            <==> TableReads(input, spelled, maximum, at, table, next)
  {
    var behind := at.(position := at.position + 4);
    CountReadsExactly(input, at, table.count, behind);
    if TakeTable(input, step, maximum, at) == Got(table, next) {
      RowsAreRead(step, spelled, table.count.bits, behind);
    }
    if TableReads(input, spelled, maximum, at, table, next) {
      ReadRowsAreTaken(step, spelled, behind, table.rows, next);
    }
  }
}
