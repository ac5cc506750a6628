/** The LZ4 block decoder of src/io/lz4_decompress.c, proved against the LZ4 Block Format. */
module Lz4Block {
  import opened Bytes

  const EXTENDED_LENGTH := 15
  const EXTENSION_CONTINUES := 255
  const MINIMUM_MATCH := 4
  const FINAL_LITERALS := 5
  const LAST_MATCH_DISTANCE := 12

  // ----- The block format: syntax trees, their bytes and their meaning -----

  /** A block is a list of sequences; `End` stops right after a match (or is the empty block) and
      `Last` is the closing literal-only sequence, whose match nibble is not used. */
  datatype Block =
    | End
    | Last(literals: seq<byte>, unusedNibble: nat)
    | More(literals: seq<byte>, offset: nat, matchLength: nat, rest: Block)

  predicate WellFormed(b: Block) {
    match b
    case End => true
    case Last(_, unused) => unused < 16
    case More(_, offset, matchLength, rest) =>
      1 <= offset < 0x1_0000 && MINIMUM_MATCH <= matchLength && WellFormed(rest)
  }

  function LengthNibble(n: nat): (r: nat)
    ensures r < 16
  {
    if n < EXTENDED_LENGTH then n else EXTENDED_LENGTH
  }

  /** The extension bytes: 255 as long as more follows. */
  function Extension(n: nat): seq<byte> {
    if n < EXTENSION_CONTINUES then [n as byte] else [255] + Extension(n - EXTENSION_CONTINUES)
  }

  function LengthTail(n: nat): seq<byte> {
    if n < EXTENDED_LENGTH then [] else Extension(n - EXTENDED_LENGTH)
  }

  /** One token byte: the literal nibble above the match nibble. */
  function Token(high: nat, low: nat): byte
    requires high < 16 && low < 16
  {
    (16 * high + low) as byte
  }

  function High(token: byte): (r: nat)
    ensures r < 16
  {
    token as nat / 16
  }

  function Low(token: byte): (r: nat)
    ensures r < 16
  {
    token as nat % 16
  }

  function OffsetBytes(offset: u16): (r: seq<byte>)
    ensures |r| == 2
  {
    [(offset % 256) as byte, (offset / 256) as byte]
  }

  /** The bytes of one literals-and-match sequence followed by `rest`. */
  function EncodeSequence(literals: seq<byte>, offset: nat, matchLength: nat, rest: seq<byte>): seq<byte>
    requires offset < 0x1_0000 && MINIMUM_MATCH <= matchLength
  {
    [Token(LengthNibble(|literals|), LengthNibble(matchLength - MINIMUM_MATCH))]
    + (LengthTail(|literals|)
    + (literals
    + (OffsetBytes(offset)
    + (LengthTail(matchLength - MINIMUM_MATCH)
    + rest))))
  }

  /** The encoded bytes of a block. */
  function Encode(b: Block): seq<byte>
    requires WellFormed(b)
  {
    match b
    case End => []
    case Last(literals, unused) =>
      [Token(LengthNibble(|literals|), unused)] + (LengthTail(|literals|) + literals)
    case More(literals, offset, matchLength, rest) =>
      EncodeSequence(literals, offset, matchLength, Encode(rest))
  }

  /** `k` reduced into [0, period) by repeated subtraction. */
  function Phase(k: nat, period: nat): (r: nat)
    requires 1 <= period
    ensures r < period
  {
    if k < period then k else Phase(k - period, period)
  }

  /** A match repeats the last `offset` bytes of the history periodically. */
  function Periodic(history: seq<byte>, offset: nat, length: nat): (r: seq<byte>)
    requires 1 <= offset <= |history|
  {
    seq(length, k requires 0 <= k => history[|history| - offset + Phase(k, offset)])
  }

  lemma {:induction false} PhaseQuotient(k: nat, period: nat) returns (q: nat)
    requires 1 <= period
    ensures k == period * q + Phase(k, period)
  {
    if k < period {
      q := 0;
    } else {
      q := PhaseQuotient(k - period, period);
      assert period * (q + 1) == period * q + period;
      q := q + 1;
    }
  }

  lemma RemainderIsUnique(k: nat, d: nat, q: nat, r: nat)
    requires r < d && k == d * q + r
    ensures k % d == r
  {
    var q', r' := k / d, k % d;
    assert k == d * q' + r';
    assert d * (q' + 1) == d * q' + d && d * (q + 1) == d * q + d;
    if q' < q {
      ProductIsMonotone(d, q' + 1, q);
    } else if q < q' {
      ProductIsMonotone(d, q + 1, q');
    }
  }

  /** Byte `k` of a match is the byte `k mod offset` of the repeated window. */
  lemma MatchIsPeriodic(history: seq<byte>, offset: nat, length: nat, k: nat)
    requires 1 <= offset <= |history| && k < length
    ensures Periodic(history, offset, length)[k] == history[|history| - offset + k % offset]
  {
    var q := PhaseQuotient(k, offset);
    RemainderIsUnique(k, offset, q, Phase(k, offset));
  }

  /** What decoding a block means: the bytes, where the last match started, and how many literals
      close the block (`None` when a match or nothing closes it). */
  datatype Decoded = Decoded(bytes: seq<byte>, lastMatch: Option<nat>, finalLiterals: Option<nat>)

  function Meaning(b: Block, history: seq<byte>, lastMatch: Option<nat>, capacity: nat): Option<Decoded> {
    match b
    case End => Some(Decoded(history, lastMatch, None))
    case Last(literals, _) =>
      if |history| + |literals| > capacity then None
      else Some(Decoded(history + literals, lastMatch, Some(|literals|)))
    case More(literals, offset, matchLength, rest) =>
      var h := history + literals;
      if |h| > capacity || offset == 0 || offset > |h| || matchLength > capacity - |h| then None
      else Meaning(rest, h + Periodic(h, offset, matchLength), Some(|h|), capacity)
  }

  /** The end-of-block conditions: a literal-only close and, after any match, five final literals
      with the last match starting twelve bytes before the end. */
  predicate EndOfBlock(d: Decoded) {
    && d.finalLiterals.Some?
    && (d.lastMatch.Some? ==>
          && d.finalLiterals.value >= FINAL_LITERALS
          && |d.bytes| - d.lastMatch.value >= LAST_MATCH_DISTANCE)
  }

  // ----- Reading the format -----

  function LittleEndian16(low: byte, high: byte): u16 {
    low as int + 256 * high as int
  }

  function ReadExtension(s: seq<byte>): Option<(nat, seq<byte>)> {
    if s == [] then None
    else if s[0] as nat != EXTENSION_CONTINUES then Some((s[0] as nat, s[1..]))
    else
      match ReadExtension(s[1..])
      case None => None
      case Some((n, rest)) => Some((EXTENSION_CONTINUES + n, rest))
  }

  function ReadLength(nibble: nat, s: seq<byte>): (r: Option<(nat, seq<byte>)>) {
    if nibble != EXTENDED_LENGTH then Some((nibble, s))
    else
      match ReadExtension(s)
      case None => None
      case Some((n, rest)) => Some((EXTENDED_LENGTH + n, rest))
  }

  lemma {:induction false} ReadExtensionShrinks(s: seq<byte>)
    ensures ReadExtension(s).Some? ==> |ReadExtension(s).value.1| < |s|
  {
    if s != [] && s[0] as nat == EXTENSION_CONTINUES {
      ReadExtensionShrinks(s[1..]);
    }
  }

  /** The next sequence of a nonempty byte string, and what follows it. */
  datatype Head =
    | Closing(literals: seq<byte>, unusedNibble: nat)
    | Copying(literals: seq<byte>, offset: nat, matchLength: nat, rest: seq<byte>)

  function ReadMatch(nibble: nat, literals: seq<byte>, s: seq<byte>): Option<Head> {
    if |s| < 2 || LittleEndian16(s[0], s[1]) == 0 then None
    else
      match ReadLength(nibble, s[2..])
      case None => None
      case Some((extra, rest)) => Some(Copying(literals, LittleEndian16(s[0], s[1]), extra + MINIMUM_MATCH, rest))
  }

  function ReadHead(s: seq<byte>): Option<Head>
    requires s != []
  {
    match ReadLength(High(s[0]), s[1..])
    case None => None
    case Some((literalLength, s1)) =>
      if literalLength > |s1| then None
      else if literalLength == |s1| then Some(Closing(s1, Low(s[0])))
      else ReadMatch(Low(s[0]), s1[..literalLength], s1[literalLength..])
  }

  lemma ReadHeadShrinks(s: seq<byte>)
    requires s != []
    ensures ReadHead(s).Some? && ReadHead(s).value.Copying? ==> |ReadHead(s).value.rest| < |s|
  {
    ReadExtensionShrinks(s[1..]);
    if ReadLength(High(s[0]), s[1..]).Some? {
      var (literalLength, s1) := ReadLength(High(s[0]), s[1..]).value;
      if literalLength + 2 <= |s1| {
        ReadExtensionShrinks(s1[literalLength..][2..]);
      }
    }
  }

  /** The tree of a byte string, if it has one. */
  function Parse(s: seq<byte>): Option<Block>
    decreases |s|
  {
    if s == [] then Some(End)
    else
      match ReadHead(s)
      case None => None
      case Some(Closing(literals, unused)) => Some(Last(literals, unused))
      case Some(Copying(literals, offset, matchLength, rest)) =>
        ReadHeadShrinks(s);
        match Parse(rest)
        case None => None
        case Some(b) => Some(More(literals, offset, matchLength, b))
  }

  lemma {:induction false} ExtensionRoundTrip(n: nat, t: seq<byte>)
    ensures ReadExtension(Extension(n) + t) == Some((n, t))
  {
    var s := Extension(n) + t;
    if n < EXTENSION_CONTINUES {
      assert s[1..] == t;
    } else {
      assert s[1..] == Extension(n - EXTENSION_CONTINUES) + t;
      ExtensionRoundTrip(n - EXTENSION_CONTINUES, t);
    }
  }

  lemma {:induction false} ExtensionIsUnique(s: seq<byte>)
    ensures ReadExtension(s).Some? ==> s == Extension(ReadExtension(s).value.0) + ReadExtension(s).value.1
  {
    if s != [] {
      assert s == [s[0]] + s[1..];
      if s[0] as nat == EXTENSION_CONTINUES {
        ExtensionIsUnique(s[1..]);
      }
    }
  }

  lemma LengthRoundTrip(n: nat, t: seq<byte>)
    ensures ReadLength(LengthNibble(n), LengthTail(n) + t) == Some((n, t))
  {
    if n < EXTENDED_LENGTH {
      assert LengthTail(n) + t == t;
    } else {
      ExtensionRoundTrip(n - EXTENDED_LENGTH, t);
    }
  }

  lemma LengthIsUnique(nibble: nat, s: seq<byte>)
    requires nibble < 16
    ensures ReadLength(nibble, s).Some? ==>
              var (n, t) := ReadLength(nibble, s).value;
              nibble == LengthNibble(n) && s == LengthTail(n) + t
  {
    if nibble == EXTENDED_LENGTH {
      ExtensionIsUnique(s);
    } else {
      assert s == [] + s;
    }
  }

  lemma TokenNibbles(high: nat, low: nat)
    requires high < 16 && low < 16
    ensures High(Token(high, low)) == high && Low(Token(high, low)) == low
  {
  }

  lemma ReadMatchOfEncoding(offset: nat, matchLength: nat, literals: seq<byte>, rest: seq<byte>)
    requires 1 <= offset < 0x1_0000 && MINIMUM_MATCH <= matchLength
    ensures ReadMatch(LengthNibble(matchLength - MINIMUM_MATCH), literals,
                      OffsetBytes(offset) + (LengthTail(matchLength - MINIMUM_MATCH) + rest))
         == Some(Copying(literals, offset, matchLength, rest))
  {
    var tail := LengthTail(matchLength - MINIMUM_MATCH) + rest;
    assert (OffsetBytes(offset) + tail)[2..] == tail;
    LengthRoundTrip(matchLength - MINIMUM_MATCH, rest);
  }

  lemma ReadHeadOfSequence(literals: seq<byte>, offset: nat, matchLength: nat, rest: seq<byte>)
    requires 1 <= offset < 0x1_0000 && MINIMUM_MATCH <= matchLength
    ensures ReadHead(EncodeSequence(literals, offset, matchLength, rest)) ==
      Some(Copying(literals, offset, matchLength, rest))
  {
    var s := EncodeSequence(literals, offset, matchLength, rest);
    var s2 := OffsetBytes(offset) + (LengthTail(matchLength - MINIMUM_MATCH) + rest);
    var s1 := literals + s2;
    assert s[1..] == LengthTail(|literals|) + s1;
    LengthRoundTrip(|literals|, s1);
    assert s1[..|literals|] == literals && s1[|literals|..] == s2;
    TokenNibbles(LengthNibble(|literals|), LengthNibble(matchLength - MINIMUM_MATCH));
    ReadMatchOfEncoding(offset, matchLength, literals, rest);
  }

  lemma ReadHeadOfLast(literals: seq<byte>, unused: nat)
    requires unused < 16
    ensures ReadHead(Encode(Last(literals, unused))) == Some(Closing(literals, unused))
  {
    var s := Encode(Last(literals, unused));
    assert s[1..] == LengthTail(|literals|) + literals;
    LengthRoundTrip(|literals|, literals);
    TokenNibbles(LengthNibble(|literals|), unused);
  }

  /** Every well-formed tree is recovered from its bytes. */
  lemma {:induction false} ParseInvertsEncode(b: Block)
    requires WellFormed(b)
    ensures Parse(Encode(b)) == Some(b)
  {
    match b
    case End =>
    case Last(literals, unused) =>
      ReadHeadOfLast(literals, unused);
    case More(literals, offset, matchLength, rest) =>
      ParseInvertsEncode(rest);
      ReadHeadOfSequence(literals, offset, matchLength, Encode(rest));
  }

  lemma LittleEndianBytes(low: byte, high: byte)
    ensures OffsetBytes(LittleEndian16(low, high)) == [low, high]
  {
  }

  lemma MatchBytesAreUnique(nibble: nat, literals: seq<byte>, s: seq<byte>)
    requires nibble < 16 && ReadMatch(nibble, literals, s).Some?
    ensures var h := ReadMatch(nibble, literals, s).value;
            && h.Copying? && 1 <= h.offset < 0x1_0000 && MINIMUM_MATCH <= h.matchLength
            && nibble == LengthNibble(h.matchLength - MINIMUM_MATCH)
            && s == OffsetBytes(h.offset) + (LengthTail(h.matchLength - MINIMUM_MATCH) + h.rest)
  {
    LengthIsUnique(nibble, s[2..]);
    LittleEndianBytes(s[0], s[1]);
    assert s == [s[0], s[1]] + s[2..];
  }

  lemma HeadBytesAreUnique(s: seq<byte>)
    requires s != [] && ReadHead(s).Some?
    ensures match ReadHead(s).value
            case Closing(literals, unused) => unused < 16 && s == Encode(Last(literals, unused))
            case Copying(literals, offset, matchLength, rest) =>
              && 1 <= offset < 0x1_0000 && MINIMUM_MATCH <= matchLength
              && s == EncodeSequence(literals, offset, matchLength, rest)
  {
    var (literalLength, s1) := ReadLength(High(s[0]), s[1..]).value;
    LengthIsUnique(High(s[0]), s[1..]);
    assert s == [Token(High(s[0]), Low(s[0]))] + s[1..];
    if literalLength < |s1| {
      SequenceBytesAreUnique(s, literalLength, s1);
    }
  }

  lemma SequenceBytesAreUnique(s: seq<byte>, literalLength: nat, s1: seq<byte>)
    requires s != [] && literalLength < |s1|
      && s == [Token(LengthNibble(literalLength), Low(s[0]))] + (LengthTail(literalLength) + s1)
    requires ReadMatch(Low(s[0]), s1[..literalLength], s1[literalLength..]).Some?
    ensures var h := ReadMatch(Low(s[0]), s1[..literalLength], s1[literalLength..]).value;
            && h.Copying? && 1 <= h.offset < 0x1_0000 && MINIMUM_MATCH <= h.matchLength
            && s == EncodeSequence(h.literals, h.offset, h.matchLength, h.rest)
  {
    var literals, s2 := s1[..literalLength], s1[literalLength..];
    assert s1 == literals + s2;
    MatchBytesAreUnique(Low(s[0]), literals, s2);
  }

  /** Every accepted byte string is the encoding of exactly the tree that was read. */
  lemma {:induction false} EncodeInvertsParse(s: seq<byte>)
    requires Parse(s).Some?
    ensures WellFormed(Parse(s).value) && Encode(Parse(s).value) == s
    decreases |s|
  {
    if s != [] {
      HeadBytesAreUnique(s);
      if ReadHead(s).value.Copying? {
        ReadHeadShrinks(s);
        EncodeInvertsParse(ReadHead(s).value.rest);
      }
    }
  }

  // ----- The result of the two entry points -----

  /** Read and decode in one pass, giving up as soon as either would. */
  function Decode(s: seq<byte>, history: seq<byte>, lastMatch: Option<nat>, capacity: nat): Option<Decoded>
    decreases |s|
  {
    if s == [] then Some(Decoded(history, lastMatch, None))
    else
      match ReadHead(s)
      case None => None
      case Some(Closing(literals, _)) =>
        if |history| + |literals| > capacity then None
        else Some(Decoded(history + literals, lastMatch, Some(|literals|)))
      case Some(Copying(literals, offset, matchLength, rest)) =>
        ReadHeadShrinks(s);
        var h := history + literals;
        if |h| > capacity || offset == 0 || offset > |h| || matchLength > capacity - |h| then None
        else Decode(rest, h + Periodic(h, offset, matchLength), Some(|h|), capacity)
  }

  lemma {:induction false} DecodeIsMeaningOfParse(s: seq<byte>, history: seq<byte>, lastMatch: Option<nat>,
                                                  capacity: nat)
    ensures Decode(s, history, lastMatch, capacity)
         == match Parse(s)
            case None => None
            case Some(b) => Meaning(b, history, lastMatch, capacity)
    decreases |s|
  {
    if s != [] && ReadHead(s).Some? && ReadHead(s).value.Copying? {
      ReadHeadShrinks(s);
      var Copying(literals, offset, matchLength, rest) := ReadHead(s).value;
      var h := history + literals;
      if |h| <= capacity && 0 < offset <= |h| && matchLength <= capacity - |h| {
        DecodeIsMeaningOfParse(rest, h + Periodic(h, offset, matchLength), Some(|h|), capacity);
      }
    }
  }

  /** The literal count of the closing sequence, read off the tree. */
  function ClosingLiterals(b: Block): Option<nat> {
    match b
    case End => None
    case Last(literals, _) => Some(|literals|)
    case More(_, _, _, rest) => ClosingLiterals(rest)
  }

  /** Where the last match of a tree starts when decoding begins at output position `start`. */
  function LastMatchOf(b: Block, start: nat): Option<nat> {
    match b
    case End => None
    case Last(_, _) => None
    case More(literals, _, matchLength, rest) =>
      var later := LastMatchOf(rest, start + |literals| + matchLength);
      if later.Some? then later else Some(start + |literals|)
  }

  lemma {:induction false} MeaningReportsTheEnding(b: Block, history: seq<byte>, lastMatch: Option<nat>, capacity: nat)
    requires Meaning(b, history, lastMatch, capacity).Some?
    ensures var d := Meaning(b, history, lastMatch, capacity).value;
            && d.finalLiterals == ClosingLiterals(b)
            && d.lastMatch == (if LastMatchOf(b, |history|).Some? then LastMatchOf(b, |history|) else lastMatch)
  {
    if b.More? {
      var h := history + b.literals;
      MeaningReportsTheEnding(b.rest, h + Periodic(h, b.offset, b.matchLength), Some(|h|), capacity);
    }
  }

  /** Exact mode accepts exactly the encodings of blocks that decode to the whole destination and
      obey the end-of-block conditions of the format. */
  lemma ExactModeIsEndOfBlock(s: seq<byte>, capacity: nat)
    ensures Accepts(Decode(s, [], None, capacity), capacity, true)
       <==> exists b ::
              && WellFormed(b) && Encode(b) == s
              && Meaning(b, [], None, capacity).Some? && |Meaning(b, [], None, capacity).value.bytes| == capacity
              && ClosingLiterals(b).Some?
              && (LastMatchOf(b, 0).Some? ==>
                    ClosingLiterals(b).value >= FINAL_LITERALS
                      && capacity - LastMatchOf(b, 0).value >= LAST_MATCH_DISTANCE)
  {
    DecodeIsMeaningOfParse(s, [], None, capacity);
    if Decode(s, [], None, capacity).Some? {
      EncodeInvertsParse(s);
      MeaningReportsTheEnding(Parse(s).value, [], None, capacity);
    }
    forall b | WellFormed(b) && Encode(b) == s
      ensures Parse(s) == Some(b)
    {
      ParseInvertsEncode(b);
    }
  }

  lemma DecodeContinues(s: seq<byte>, history: seq<byte>, lastMatch: Option<nat>, capacity: nat)
    requires s != [] && ReadHead(s).Some? && ReadHead(s).value.Copying?
    requires var Copying(literals, offset, matchLength, _) := ReadHead(s).value;
             0 < offset <= |history| + |literals| && |history| + |literals| + matchLength <= capacity
    ensures var Copying(literals, offset, matchLength, rest) := ReadHead(s).value;
            var h := history + literals;
            Decode(s, history, lastMatch, capacity) ==
              Decode(rest, h + Periodic(h, offset, matchLength), Some(|h|), capacity)
  {
    ReadHeadShrinks(s);
  }

  predicate Accepts(d: Option<Decoded>, capacity: nat, exact: bool) {
    d.Some? && (exact ==> |d.value.bytes| == capacity && EndOfBlock(d.value))
  }

  /** Decoding yields `d` exactly when the source is the encoding of a block that means `d`. */
  lemma DecodesTheFormat(s: seq<byte>, capacity: nat, d: Decoded)
    ensures Decode(s, [], None, capacity) == Some(d)
       <==> exists b :: WellFormed(b) && Encode(b) == s && Meaning(b, [], None, capacity) == Some(d)
  {
    DecodeIsMeaningOfParse(s, [], None, capacity);
    if Parse(s).Some? {
      EncodeInvertsParse(s);
    }
    forall b | WellFormed(b) && Encode(b) == s
      ensures Parse(s) == Some(b)
    {
      ParseInvertsEncode(b);
    }
  }

  // ----- The format in numbers -----

  /** The bytes behind a length nibble of 15: as many 255s as fit, then what is left. */
  function Surplus(n: nat): seq<byte> {
    if n < 15 then [] else seq((n - 15) / 255, _ => 255) + [((n - 15) % 255) as byte]
  }

  function Nibble(n: nat): (r: nat)
    ensures r < 16
  {
    if n < 15 then n else 15
  }

  /** A token, the literals behind their length, the offset with its low byte first, and the length of the match, of
      which four bytes go without saying. */
  function Written(b: Block): seq<byte>
    requires Legal(b)
  {
    match b
    case End => []
    case Last(literals, unused) =>
      [(16 * Nibble(|literals|) + unused) as byte] + (Surplus(|literals|) + literals)
    case More(literals, offset, matchLength, rest) =>
      [(16 * Nibble(|literals|) + Nibble(matchLength - 4)) as byte]
      + (Surplus(|literals|) + (literals + (ToLittleEndian(offset, 2) + (Surplus(matchLength - 4) + Written(rest)))))
  }

  predicate Legal(b: Block) {
    match b
    case End => true
    case Last(_, unused) => unused <= 15
    case More(_, offset, matchLength, rest) => 1 <= offset <= 65535 && 4 <= matchLength && Legal(rest)
  }

  /** Every match begins at most as far back as there is output. */
  predicate Reaches(b: Block, start: nat) {
    b.More? ==> 1 <= b.offset <= start + |b.literals| && Reaches(b.rest, start + |b.literals| + b.matchLength)
  }

  /** The output: literals as they are, and each match the window of its offset over and over. */
  function Expanded(b: Block, history: seq<byte>): (r: seq<byte>)
    requires Reaches(b, |history|)
    ensures |history| <= |r|
  {
    match b
    case End => history
    case Last(literals, _) => history + literals
    case More(literals, offset, matchLength, rest) =>
      var h := history + literals;
      Expanded(rest, h + seq(matchLength, k requires 0 <= k => h[|h| - offset + k % offset]))
  }

  /** A block whose bytes these are, with output within the capacity. In exact mode the output fills the capacity, the
      block ends in literals, and after any match there are at least five of them, with the last match at least twelve
      bytes before the end. */
  predicate Decompresses(b: Block, s: seq<byte>, capacity: nat, exact: bool) {
    && Legal(b) && Written(b) == s && Reaches(b, 0) && |Expanded(b, [])| <= capacity
    && (exact ==>
          && |Expanded(b, [])| == capacity && ClosingLiterals(b).Some?
          && (LastMatchOf(b, 0).Some? ==> ClosingLiterals(b).value >= 5 && capacity - LastMatchOf(b, 0).value >= 12))
  }

  lemma {:induction false} ExtensionIsSurplus(n: nat)
    ensures Extension(n) == seq(n / 255, _ => 255 as byte) + [(n % 255) as byte]
  {
    if n >= 255 {
      ExtensionIsSurplus(n - 255);
      assert n / 255 == (n - 255) / 255 + 1 && n % 255 == (n - 255) % 255;
      assert seq(n / 255, _ => 255 as byte) == [255] + seq((n - 255) / 255, _ => 255 as byte);
    } else {
      assert seq(0, _ => 255 as byte) == [];
    }
  }

  lemma OffsetIsLittleEndian(offset: u16)
    ensures OffsetBytes(offset) == ToLittleEndian(offset, 2)
  {
    assert ToLittleEndian(offset / 256, 1) == [(offset / 256) as byte];
  }

  lemma SurplusIsTail(n: nat)
    ensures LengthTail(n) == Surplus(n) && LengthNibble(n) == Nibble(n)
  {
    if n >= 15 {
      ExtensionIsSurplus(n - 15);
    }
  }

  /** The encoder writes the format. */
  lemma {:induction false} EncodeIsWritten(b: Block)
    ensures WellFormed(b) <==> Legal(b)
    ensures WellFormed(b) ==> Encode(b) == Written(b)
  {
    match b
    case End =>
    case Last(literals, _) => SurplusIsTail(|literals|);
    case More(literals, offset, matchLength, rest) =>
      SurplusIsTail(|literals|);
      if 1 <= offset <= 65535 && 4 <= matchLength {
        SurplusIsTail(matchLength - 4);
        OffsetIsLittleEndian(offset);
      }
      EncodeIsWritten(rest);
  }

  lemma MatchIsWindow(h: seq<byte>, offset: nat, length: nat)
    requires 1 <= offset <= |h|
    ensures Periodic(h, offset, length) == seq(length, k requires 0 <= k => h[|h| - offset + k % offset])
  {
    forall k | 0 <= k < length ensures Periodic(h, offset, length)[k] == h[|h| - offset + k % offset] {
      MatchIsPeriodic(h, offset, length, k);
    }
  }

  /** A block means its expansion, if every match reaches and the whole output is within the capacity. */
  lemma {:induction false} MeaningIsExpansion(b: Block, history: seq<byte>, lastMatch: Option<nat>, capacity: nat)
    requires |history| <= capacity
    ensures var d := Meaning(b, history, lastMatch, capacity);
            && (d.Some? <==> Reaches(b, |history|) && |Expanded(b, history)| <= capacity)
            && (d.Some? ==> d.value.bytes == Expanded(b, history))
  {
    if b.More? {
      var h := history + b.literals;
      if 1 <= b.offset <= |h| {
        MatchIsWindow(h, b.offset, b.matchLength);
        var next := h + Periodic(h, b.offset, b.matchLength);
        if |next| <= capacity {
          MeaningIsExpansion(b.rest, next, Some(|h|), capacity);
        }
      }
    }
  }

  /** What the decoder accepts is the one block of the source, if it decompresses. */
  lemma AcceptsWhatDecompresses(s: seq<byte>, capacity: nat, exact: bool)
    ensures var d := Decode(s, [], None, capacity);
            && (Accepts(d, capacity, exact) <==> exists b :: Decompresses(b, s, capacity, exact))
            && forall b :: Decompresses(b, s, capacity, exact) ==> d.Some? && d.value.bytes == Expanded(b, [])
  {
    DecodeIsMeaningOfParse(s, [], None, capacity);
    forall b | Decompresses(b, s, capacity, exact)
      ensures Parse(s) == Some(b)
    {
      EncodeIsWritten(b);
      ParseInvertsEncode(b);
    }
    if Parse(s).Some? {
      var b := Parse(s).value;
      EncodeInvertsParse(s);
      EncodeIsWritten(b);
      MeaningIsExpansion(b, [], None, capacity);
      if Meaning(b, [], None, capacity).Some? {
        MeaningReportsTheEnding(b, [], None, capacity);
      }
      assert Accepts(Decode(s, [], None, capacity), capacity, exact) <==> Decompresses(b, s, capacity, exact);
    }
  }

  // ----- The decoder -----

  method ReadLengthAt(source: seq<byte>, position: nat, nibble: nat) returns (ok: bool, next: nat, length: nat)
    requires position <= |source| <= INT_MAX && nibble < 16
    ensures position <= next <= |source|
    ensures ok == ReadLength(nibble, source[position..]).Some?
    ensures ok ==> ReadLength(nibble, source[position..]) == Some((length, source[next..]))
  {
    next, length := position, nibble;
    if length != EXTENDED_LENGTH {
      return true, next, length;
    }
    var going := true;
    while going
      invariant position <= next <= |source|
      invariant EXTENDED_LENGTH <= length <= EXTENDED_LENGTH + 255 * (next - position)
      invariant going ==>
        match ReadExtension(source[next..])
        case None => ReadLength(nibble, source[position..]) == None
        case Some((n, rest)) => ReadLength(nibble, source[position..]) == Some((length + n, rest))
      invariant !going ==> ReadLength(nibble, source[position..]) == Some((length, source[next..]))
      decreases |source| - next, going
    {
      if next >= |source| {
        return false, next, length;
      }
      assert source[next..][1..] == source[next + 1..];
      var extension := source[next] as nat;
      next := next + 1;
      if length > SIZE_MAX - extension {
        return false, next, length;
      }
      length := length + extension;
      going := extension == EXTENSION_CONTINUES;
    }
    ok := true;
  }

  /** memcpy of a literal run. */
  method CopyLiterals(source: seq<byte>, from: nat, destination: array<byte>, at: nat, length: nat)
    requires from + length <= |source| && at + length <= destination.Length
    modifies destination
    ensures destination[..at + length] == old(destination[..at]) + source[from..from + length]
    ensures forall j :: at + length <= j < destination.Length ==> destination[j] == old(destination[j])
  {
    for k := 0 to length
      invariant destination[..at] == old(destination[..at])
      invariant destination[at..at + k] == source[from..from + k]
      invariant forall j :: at + k <= j < destination.Length ==> destination[j] == old(destination[j])
    {
      destination[at + k] := source[from + k];
    }
  }

  /** The match loop: bytes written early are read again by an overlapping match. */
  method CopyMatch(destination: array<byte>, at: nat, offset: nat, length: nat)
    requires 1 <= offset <= at && at + length <= destination.Length
    modifies destination
    ensures destination[..at + length] == old(destination[..at]) + Periodic(old(destination[..at]), offset, length)
    ensures forall j :: at + length <= j < destination.Length ==> destination[j] == old(destination[j])
  {
    var matchPosition := at - offset;
    ghost var h := destination[..at];
    for k := 0 to length
      invariant matchPosition == at - offset + k
      invariant forall j :: 0 <= j < at ==> destination[j] == h[j]
      invariant forall j :: 0 <= j < k ==> destination[at + j] == h[at - offset + Phase(j, offset)]
      invariant forall j :: at + k <= j < destination.Length ==> destination[j] == old(destination[j])
    {
      if k >= offset {
        assert destination[at + (k - offset)] == h[at - offset + Phase(k - offset, offset)];
      }
      destination[at + k] := destination[matchPosition];
      matchPosition := matchPosition + 1;
    }
    MatchAssembles(destination[..], h, offset, length);
    assert destination[..at + length] == destination[..][..at + length];
  }

  lemma MatchAssembles(a: seq<byte>, h: seq<byte>, offset: nat, length: nat)
    requires 1 <= offset <= |h| && |h| + length <= |a|
    requires forall j :: 0 <= j < |h| ==> a[j] == h[j]
    requires forall j :: 0 <= j < length ==> a[|h| + j] == h[|h| - offset + Phase(j, offset)]
    ensures a[..|h| + length] == h + Periodic(h, offset, length)
  {
    assert a[|h|..|h| + length] == Periodic(h, offset, length);
    assert a[..|h| + length] == a[..|h|] + a[|h|..|h| + length];
  }

  /** How one pass through the decoder's loop ends. */
  datatype Step = Failed | Finished(literalLength: nat) | Continued(matchStart: nat)

  /** The offset, match length and match of one sequence whose literals are already copied. */
  method DecodeMatch(source: seq<byte>, position: nat, nibble: nat, ghost literals: seq<byte>,
                     destination: array<byte>, output: nat, capacity: nat)
    returns (step: Step, inputPosition: nat, outputPosition: nat)
    requires position < |source| <= INT_MAX && nibble < 16
    requires output <= capacity <= destination.Length && capacity <= INT_MAX
    modifies destination
    ensures !step.Finished? && output <= outputPosition <= capacity && position < inputPosition <= |source|
    ensures forall j :: outputPosition <= j < destination.Length ==> destination[j] == old(destination[j])
    ensures match ReadMatch(nibble, literals, source[position..])
            case None => step.Failed?
            case Some(head) =>
              if head.offset == 0 || head.offset > output || head.matchLength > capacity - output
              then step.Failed?
              else
                && step == Continued(output) && head.rest == source[inputPosition..]
                && destination[..outputPosition]
                   == old(destination[..output]) + Periodic(old(destination[..output]), head.offset, head.matchLength)
  {
    step, inputPosition, outputPosition := Failed, |source|, output;
    if |source| - position < 2 {
      return;
    }
    var offset := LittleEndian16(source[position], source[position + 1]);
    inputPosition := position + 2;
    assert source[position..][2..] == source[inputPosition..];
    if offset == 0 || offset > output {
      return;
    }
    var ok, next, matchLength := ReadLengthAt(source, inputPosition, nibble);
    if !ok || matchLength > SIZE_MAX - MINIMUM_MATCH {
      return;
    }
    inputPosition := next;
    matchLength := matchLength + MINIMUM_MATCH;
    if matchLength > capacity - output {
      return;
    }
    CopyMatch(destination, output, offset, matchLength);
    step, outputPosition := Continued(output), output + matchLength;
  }

  /** One sequence: token, literals, and (unless the input ends there) the match. */
  method DecodeSequence(source: seq<byte>, position: nat, destination: array<byte>, output: nat, capacity: nat)
    returns (step: Step, inputPosition: nat, outputPosition: nat)
    requires position < |source| <= INT_MAX && output <= capacity <= destination.Length && capacity <= INT_MAX
    modifies destination
    ensures output <= outputPosition <= capacity && position < inputPosition <= |source|
    ensures forall j :: outputPosition <= j < destination.Length ==> destination[j] == old(destination[j])
    ensures match ReadHead(source[position..])
            case None => step.Failed?
            case Some(Closing(literals, _)) =>
              if output + |literals| > capacity then step.Failed?
              else
                && step == Finished(|literals|)
                && destination[..outputPosition] == old(destination[..output]) + literals
            case Some(Copying(literals, offset, matchLength, rest)) =>
              var h := old(destination[..output]) + literals;
              if |h| > capacity || offset == 0 || offset > |h| || matchLength > capacity - |h|
              then step.Failed?
              else
                && step == Continued(|h|) && rest == source[inputPosition..]
                && destination[..outputPosition] == h + Periodic(h, offset, matchLength)
  {
    step, inputPosition, outputPosition := Failed, position + 1, output;
    ghost var s := source[position..];
    assert s[1..] == source[inputPosition..];
    var ok, next, literalLength := ReadLengthAt(source, inputPosition, High(source[position]));
    if !ok || literalLength > |source| - next {
      return;
    }
    inputPosition := next + literalLength;
    ghost var literals := source[next..inputPosition];
    assert source[next..][..literalLength] == literals;
    assert source[next..][literalLength..] == source[inputPosition..];
    if literalLength > capacity - output {
      assert ReadHead(s).Some? ==> |ReadHead(s).value.literals| == literalLength;
      return;
    }
    CopyLiterals(source, next, destination, output, literalLength);
    outputPosition := output + literalLength;
    ghost var h := old(destination[..output]) + literals;
    assert destination[..outputPosition] == h;
    if inputPosition == |source| {
      assert source[next..] == literals;
      step := Finished(literalLength);
    } else {
      assert ReadHead(s) == ReadMatch(Low(source[position]), literals, source[inputPosition..]);
      step, inputPosition, outputPosition :=
        DecodeMatch(source, inputPosition, Low(source[position]), literals, destination, outputPosition, capacity);
      assert step.Continued? ==>
        destination[..outputPosition] == h + Periodic(h, ReadHead(s).value.offset, ReadHead(s).value.matchLength);
    }
  }

  method DecompressBlock(source: seq<byte>, destination: array<byte>, sourceBytes: int, destinationBytes: int,
                         exact: bool)
    returns (result: int)
    requires sourceBytes <= |source| && sourceBytes <= INT_MAX
    requires destinationBytes <= destination.Length && destinationBytes <= INT_MAX
    modifies destination
    ensures sourceBytes < 0 || destinationBytes < 0 ==> result == -1
    ensures 0 <= sourceBytes && 0 <= destinationBytes ==>
              var d := Decode(source[..sourceBytes], [], None, destinationBytes);
              if Accepts(d, destinationBytes, exact)
              then result == |d.value.bytes| <= destinationBytes && destination[..result] == d.value.bytes
              else result == -1
    ensures forall j :: 0 <= j < destination.Length && (if result >= 0 then result else destinationBytes) <= j
              ==> destination[j] == old(destination[j])
    ensures 0 <= sourceBytes && 0 <= destinationBytes ==>
              && (result >= 0 <==> exists b :: Decompresses(b, source[..sourceBytes], destinationBytes, exact))
              && forall b :: Decompresses(b, source[..sourceBytes], destinationBytes, exact) ==>
                   0 <= result <= destinationBytes && destination[..result] == Expanded(b, [])
  {
    if 0 <= sourceBytes && 0 <= destinationBytes {
      AcceptsWhatDecompresses(source[..sourceBytes], destinationBytes, exact);
    }
    if sourceBytes < 0 || destinationBytes < 0 {
      return -1;
    }
    var src := source[..sourceBytes];
    ghost var goal := Decode(src, [], None, destinationBytes);
    var inputPosition, outputPosition, lastMatchStart, matched := 0, 0, 0, false;
    while inputPosition < sourceBytes
      invariant 0 <= inputPosition <= sourceBytes && 0 <= outputPosition <= destinationBytes
      invariant matched ==> 0 <= lastMatchStart
      invariant Decode(src[inputPosition..], destination[..outputPosition],
                       if matched then Some(lastMatchStart) else None, destinationBytes) == goal
      invariant forall j :: outputPosition <= j < destination.Length ==> destination[j] == old(destination[j])
    {
      ghost var s, history := src[inputPosition..], destination[..outputPosition];
      ghost var lastMatch := if matched then Some(lastMatchStart) else None;
      var step, input, output := DecodeSequence(src, inputPosition, destination, outputPosition, destinationBytes);
      match step {
        case Failed =>
          return -1;
        case Finished(literalLength) =>
          if exact && (output != destinationBytes ||
                       (matched && (literalLength < FINAL_LITERALS || output - lastMatchStart < LAST_MATCH_DISTANCE)))
          {
            return -1;
          }
          return output;
        case Continued(matchStart) =>
          DecodeContinues(s, history, lastMatch, destinationBytes);
          ghost var Copying(literals, offset, matchLength, rest) := ReadHead(s).value;
          ghost var h := history + literals;
          assert rest == src[input..];
          assert matchStart == |h|;
          assert destination[..output] == h + Periodic(h, offset, matchLength);
          assert Decode(s, history, lastMatch, destinationBytes) == goal;
          assert Decode(src[input..], destination[..output], Some(matchStart), destinationBytes) == goal;
          lastMatchStart := matchStart;
          matched := true;
      }
      inputPosition, outputPosition := input, output;
    }
    result := if exact then -1 else outputPosition;
  }
}
