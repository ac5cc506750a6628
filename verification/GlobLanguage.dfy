/** The language of globs: by pieces, as the matcher follows it, and by the bytes of a pattern and the parts of a text,
    without any of the parser's names (src/common/ascii_glob.c). */
module GlobLanguage {
  import opened Bytes
  import opened AsciiGlob

  // ----- The language -----

  predicate InItem(item: Item, b: byte) {
    match item
    case Hyphen => b == HYPHEN
    case One(a) => b == a.b
    case Range(first, last) => first.b <= b <= last.b
  }

  predicate InItems(items: seq<Item>, b: byte) {
    exists i {:trigger items[i]} :: 0 <= i < |items| && InItem(items[i], b)
  }

  /** The single bytes a piece other than a star stands for. */
  predicate Accepts(piece: Piece, b: byte) {
    match piece
    case Star => false
    case Any => true
    case Literal(a) => b == a.b
    case Class(m, items) => InItems(items, b) == (m == NoMarker)
  }

  /** The text is in the language of the pieces: a star stands for any bytes, every other piece for one. */
  ghost predicate Matches(pieces: seq<Piece>, text: seq<byte>) {
    if pieces == [] then text == []
    else if pieces[0] == Star then exists k {:trigger text[k..]} :: 0 <= k <= |text| && Matches(pieces[1..], text[k..])
    else text != [] && Accepts(pieces[0], text[0]) && Matches(pieces[1..], text[1..])
  }

  // ----- Patterns in ASCII -----

  function WrittenAtom(a: Atom): seq<byte> {
    if a.Plain? then [a.b] else [92, a.b]
  }

  function WrittenItem(item: Item): seq<byte> {
    match item
    case Hyphen => [45]
    case One(a) => WrittenAtom(a)
    case Range(a, b) => WrittenAtom(a) + [45] + WrittenAtom(b)
  }

  function WrittenItems(items: seq<Item>): seq<byte> {
    if items == [] then [] else WrittenItem(items[0]) + WrittenItems(items[1..])
  }

  /** A star is 42 and a question mark 63. A class stands between 91 and 93, with 33 or 94 in front when it is
      negated, and 92 escapes. */
  function WrittenPiece(piece: Piece): seq<byte> {
    match piece
    case Star => [42]
    case Any => [63]
    case Literal(a) => WrittenAtom(a)
    case Class(m, items) =>
      [91] + ((if m.Bang? then [33] else if m.Caret? then [94] else []) + (WrittenItems(items) + [93]))
  }

  function Written(pieces: seq<Piece>): seq<byte> {
    if pieces == [] then [] else WrittenPiece(pieces[0]) + Written(pieces[1..])
  }

  /** Inside a class a hyphen, a closing bracket and a backslash are escaped, and ranges do not go down. */
  predicate LegalItem(item: Item) {
    match item
    case Hyphen => true
    case One(a) => a.Plain? ==> a.b != 45 && a.b != 93 && a.b != 92
    case Range(a, b) =>
      && (a.Plain? ==> a.b != 45 && a.b != 93 && a.b != 92) && (b.Plain? ==> b.b != 45 && b.b != 93 && b.b != 92)
      && a.b <= b.b
  }

  /** A class is not empty. It has hyphens at its ends only, and does not look negated when it is not. */
  predicate LegalPiece(piece: Piece) {
    match piece
    case Star => true
    case Any => true
    case Literal(a) => a.Plain? ==> a.b != 42 && a.b != 63 && a.b != 91 && a.b != 92
    case Class(m, items) =>
      && items != [] && (forall i {:trigger items[i]} :: 0 <= i < |items| ==> LegalItem(items[i]))
      && (forall i {:trigger items[i]} :: 0 < i < |items| - 1 ==> !items[i].Hyphen?)
      && (m.NoMarker? ==> WrittenItem(items[0])[..1] != [33] && WrittenItem(items[0])[..1] != [94])
  }

  /** The pattern is what legal pieces look like. */
  predicate Spells(pieces: seq<Piece>, pattern: seq<byte>) {
    (forall i {:trigger pieces[i]} :: 0 <= i < |pieces| ==> LegalPiece(pieces[i])) && Written(pieces) == pattern
  }

  // ----- Texts in parts -----

  predicate InRange(item: Item, b: byte) {
    match item
    case Hyphen => b == 45
    case One(a) => b == a.b
    case Range(first, last) => first.b <= b <= last.b
  }

  /** The part of a text that one piece may stand for. */
  ghost predicate Covers(piece: Piece, part: seq<byte>) {
    match piece
    case Star => true
    case Any => |part| == 1
    case Literal(a) => part == [a.b]
    case Class(m, items) => |part| == 1 && ((exists item :: item in items && InRange(item, part[0])) <==> m.NoMarker?)
  }

  function Joined(parts: seq<seq<byte>>): seq<byte> {
    if parts == [] then [] else parts[0] + Joined(parts[1..])
  }

  /** The text falls into parts, one for each piece. */
  ghost predicate Denotes(pieces: seq<Piece>, text: seq<byte>) {
    exists parts {:trigger Joined(parts)} :: Joined(parts) == text && Cover(pieces, parts)
  }

  ghost predicate Cover(pieces: seq<Piece>, parts: seq<seq<byte>>) {
    |parts| == |pieces| && forall i {:trigger parts[i]} :: 0 <= i < |pieces| ==> Covers(pieces[i], parts[i])
  }

  // ----- The grammar is the ASCII form -----

  lemma {:induction false} ItemsAreWritten(items: seq<Item>)
    ensures ItemsText(items) == WrittenItems(items)
  {
    if items != [] {
      ItemsAreWritten(items[1..]);
    }
  }

  lemma {:induction false} PiecesAreWritten(pieces: seq<Piece>)
    ensures PatternText(pieces) == Written(pieces)
  {
    if pieces != [] {
      if pieces[0].Class? {
        ItemsAreWritten(pieces[0].items);
      }
      PiecesAreWritten(pieces[1..]);
    }
  }

  /** The items behind the first: a hyphen only at the end. */
  lemma {:induction false} LaterItemsAreLegal(items: seq<Item>)
    ensures ClassItems(items, false)
            <==> && (forall i {:trigger items[i]} :: 0 <= i < |items| ==> LegalItem(items[i]))
                 && forall i {:trigger items[i]} :: 0 <= i < |items| - 1 ==> !items[i].Hyphen?
  {
    if items != [] {
      var tail := items[1..];
      LaterItemsAreLegal(tail);
      assert forall i {:trigger items[i]} :: 0 < i < |items| ==> items[i] == tail[i - 1];
      if ClassItems(items, false) {
        forall i | 0 <= i < |items| ensures LegalItem(items[i]) {
          if i > 0 {
            assert LegalItem(tail[i - 1]);
          }
        }
        forall i | 0 <= i < |items| - 1 ensures !items[i].Hyphen? {
          if i > 0 {
            assert !tail[i - 1].Hyphen?;
          }
        }
      }
    }
  }

  lemma ItemsAreLegal(items: seq<Item>)
    requires items != []
    ensures ClassItems(items, true)
            <==> && (forall i {:trigger items[i]} :: 0 <= i < |items| ==> LegalItem(items[i]))
                 && forall i {:trigger items[i]} :: 0 < i < |items| - 1 ==> !items[i].Hyphen?
  {
    var tail := items[1..];
    LaterItemsAreLegal(tail);
    assert forall i {:trigger items[i]} :: 0 < i < |items| ==> items[i] == tail[i - 1];
    if ClassItems(items, true) {
      forall i | 0 <= i < |items| ensures LegalItem(items[i]) {
        if i > 0 {
          assert LegalItem(tail[i - 1]);
        }
      }
      forall i | 0 < i < |items| - 1 ensures !items[i].Hyphen? {
        assert !tail[i - 1].Hyphen?;
      }
    }
  }

  lemma PieceIsLegal(piece: Piece)
    ensures WellFormedPiece(piece) <==> LegalPiece(piece)
  {
    if piece.Class? && piece.items != [] {
      ItemsAreLegal(piece.items);
      var text := WrittenItem(piece.items[0]);
      assert ItemText(piece.items[0]) == text && text[..1] == [text[0]];
    }
  }

  lemma PatternIsSpelled(pieces: seq<Piece>, pattern: seq<byte>)
    ensures WellFormed(pieces) && PatternText(pieces) == pattern <==> Spells(pieces, pattern)
  {
    PiecesAreWritten(pieces);
    forall i | 0 <= i < |pieces| ensures WellFormedPiece(pieces[i]) <==> LegalPiece(pieces[i]) {
      PieceIsLegal(pieces[i]);
    }
  }

  // ----- The language is the parts -----

  lemma ByteIsCovered(piece: Piece, b: byte)
    requires piece != Star
    ensures Accepts(piece, b) <==> Covers(piece, [b])
  {
    if piece.Class? {
      var items := piece.items;
      if InItems(items, b) {
        var i :| 0 <= i < |items| && InItem(items[i], b);
        assert items[i] in items && InRange(items[i], b);
      }
      if item :| item in items && InRange(item, b) {
        var i :| 0 <= i < |items| && items[i] == item;
        assert InItem(items[i], b);
      }
    }
  }

  lemma {:induction false} MatchedFallsApart(pieces: seq<Piece>, text: seq<byte>)
    requires Matches(pieces, text)
    ensures Denotes(pieces, text)
    decreases |pieces|
  {
    if pieces == [] {
      assert Cover(pieces, []) && Joined([]) == [];
    } else {
      var k := if pieces[0] == Star then (var k :| 0 <= k <= |text| && Matches(pieces[1..], text[k..]); k) else 1;
      MatchedFallsApart(pieces[1..], text[k..]);
      var rest :| Joined(rest) == text[k..] && Cover(pieces[1..], rest);
      if pieces[0] != Star {
        ByteIsCovered(pieces[0], text[0]);
        assert text[..1] == [text[0]];
      }
      OneMorePart(pieces, text[..k], rest);
      assert text == text[..k] + text[k..];
    }
  }

  lemma {:induction false} PartsMatch(pieces: seq<Piece>, parts: seq<seq<byte>>)
    requires Cover(pieces, parts)
    ensures Matches(pieces, Joined(parts))
    decreases |pieces|
  {
    if pieces != [] {
      var text, k := Joined(parts), |parts[0]|;
      FirstPart(pieces, parts);
      PartsMatch(pieces[1..], parts[1..]);
      assert text[k..] == Joined(parts[1..]);
      if pieces[0] != Star {
        assert parts[0] == [text[0]];
        ByteIsCovered(pieces[0], text[0]);
      }
    }
  }

  /** A text matches exactly when it falls into parts that the pieces stand for. */
  lemma MatchesByParts(pieces: seq<Piece>, text: seq<byte>)
    ensures Matches(pieces, text) <==> Denotes(pieces, text)
  {
    if Matches(pieces, text) {
      MatchedFallsApart(pieces, text);
    }
    if parts :| Joined(parts) == text && Cover(pieces, parts) {
      PartsMatch(pieces, parts);
    }
  }

  lemma OneMorePart(pieces: seq<Piece>, part: seq<byte>, rest: seq<seq<byte>>)
    requires pieces != [] && Covers(pieces[0], part) && Cover(pieces[1..], rest)
    ensures Cover(pieces, [part] + rest) && Joined([part] + rest) == part + Joined(rest)
  {
    assert ([part] + rest)[1..] == rest;
    forall i | 0 <= i < |pieces| ensures Covers(pieces[i], ([part] + rest)[i]) {
      if i > 0 {
        assert Covers(pieces[1..][i - 1], rest[i - 1]);
      }
    }
  }

  lemma FirstPart(pieces: seq<Piece>, parts: seq<seq<byte>>)
    requires pieces != [] && Cover(pieces, parts)
    ensures Covers(pieces[0], parts[0]) && Cover(pieces[1..], parts[1..])
  {
    forall i | 0 <= i < |pieces[1..]| ensures Covers(pieces[1..][i], parts[1..][i]) {
      assert Covers(pieces[i + 1], parts[i + 1]);
    }
  }

  /** Patterns parse exactly when they are spelled, and match what their pieces denote. */
  lemma PatternsDenote(pattern: seq<byte>, text: seq<byte>)
    ensures Parse(pattern).Some? <==> exists pieces {:trigger Spells(pieces, pattern)} :: Spells(pieces, pattern)
    ensures forall pieces {:trigger Spells(pieces, pattern)} :: Spells(pieces, pattern) ==>
      Parse(pattern) == Some(pieces) && (Matches(pieces, text) <==> Denotes(pieces, text))
  {
    forall pieces
      ensures Spells(pieces, pattern) ==>
                Parse(pattern) == Some(pieces) && (Matches(pieces, text) <==> Denotes(pieces, text))
    {
      PatternIsSpelled(pieces, pattern);
      ValidExactlyInTheGrammar(pattern, pieces);
      MatchesByParts(pieces, text);
    }
    if Parse(pattern).Some? {
      var pieces := Parse(pattern).value;
      PrintInvertsParse(pattern);
      PatternIsSpelled(pieces, pattern);
      assert Spells(pieces, pattern);
    }
  }
}
