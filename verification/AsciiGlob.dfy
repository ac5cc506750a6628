/** The byte-string glob language and its two-row matcher (src/common/ascii_glob.c).
    Patterns and texts are the bytes before the terminator. */
module AsciiGlob {
  import opened Bytes

  const STAR: byte := 42
  const HYPHEN: byte := 45
  const QUESTION: byte := 63
  const OPEN: byte := 91
  const ESCAPE: byte := 92
  const CLOSE: byte := 93
  const BANG: byte := 33
  const CARET: byte := 94

  // ----- Syntax -----

  datatype Atom = Plain(b: byte) | Escaped(b: byte)

  datatype Item = Hyphen | One(atom: Atom) | Range(first: Atom, last: Atom)

  datatype Marker = NoMarker | Bang | Caret

  datatype Piece = Star | Any | Literal(atom: Atom) | Class(marker: Marker, items: seq<Item>)

  function AtomText(a: Atom): seq<byte> {
    if a.Plain? then [a.b] else [ESCAPE, a.b]
  }

  function ItemText(item: Item): seq<byte> {
    match item
    case Hyphen => [HYPHEN]
    case One(a) => AtomText(a)
    case Range(a, b) => AtomText(a) + [HYPHEN] + AtomText(b)
  }

  function ItemsText(items: seq<Item>): seq<byte> {
    if items == [] then [] else ItemText(items[0]) + ItemsText(items[1..])
  }

  function MarkerText(m: Marker): seq<byte> {
    match m
    case NoMarker => []
    case Bang => [BANG]
    case Caret => [CARET]
  }

  function PieceText(piece: Piece): (r: seq<byte>) {
    match piece
    case Star => [STAR]
    case Any => [QUESTION]
    case Literal(a) => AtomText(a)
    case Class(m, items) => [OPEN] + (MarkerText(m) + (ItemsText(items) + [CLOSE]))
  }

  function PatternText(pieces: seq<Piece>): seq<byte> {
    if pieces == [] then [] else PieceText(pieces[0]) + PatternText(pieces[1..])
  }

  // ----- Well-formed patterns -----

  /** Inside a class an unescaped atom is not a hyphen, a closing bracket or an escape. */
  predicate ClassAtom(a: Atom) {
    a.Plain? ==> a.b != HYPHEN && a.b != CLOSE && a.b != ESCAPE
  }

  predicate ClassItem(item: Item) {
    match item
    case Hyphen => true
    case One(a) => ClassAtom(a)
    case Range(a, b) => ClassAtom(a) && ClassAtom(b) && a.b <= b.b
  }

  /** A raw hyphen is an item only at an edge of the class. */
  predicate ClassItems(items: seq<Item>, first: bool) {
    items != [] ==>
      && ClassItem(items[0]) && (items[0] == Hyphen ==> first || |items| == 1)
      && ClassItems(items[1..], false)
  }

  predicate WellFormedPiece(piece: Piece) {
    match piece
    case Star => true
    case Any => true
    case Literal(a) => a.Plain? ==> a.b != STAR && a.b != QUESTION && a.b != OPEN && a.b != ESCAPE
    case Class(m, items) =>
      && items != [] && ClassItems(items, true)
      && (m == NoMarker ==> ItemText(items[0])[0] != BANG && ItemText(items[0])[0] != CARET)
  }

  predicate WellFormed(pieces: seq<Piece>) {
    forall i {:trigger pieces[i]} :: 0 <= i < |pieces| ==> WellFormedPiece(pieces[i])
  }

  // ----- Parsing -----

  datatype Parsed<T> = Malformed | Read(value: T, rest: seq<byte>)

  function ReadAtom(c: seq<byte>): (r: Parsed<Atom>)
    ensures r.Read? ==> c == AtomText(r.value) + r.rest && |r.rest| < |c|
  {
    if c == [] then Malformed
    else if c[0] == ESCAPE then (if |c| < 2 then Malformed else Read(Escaped(c[1]), c[2..]))
    else if c[0] == HYPHEN then Malformed
    else Read(Plain(c[0]), c[1..])
  }

  function ReadItem(c: seq<byte>, first: bool): (r: Parsed<Item>)
    requires c != []
    ensures r.Read? ==> |r.rest| < |c|
  {
    if c[0] == HYPHEN then (if !first && |c| != 1 then Malformed else Read(Hyphen, c[1..]))
    else
      match ReadAtom(c)
      case Malformed => Malformed
      case Read(a, rest) => ReadAfter(a, rest)
  }

  /** What the text behind an atom makes of it: a range when a hyphen and more follows. */
  function ReadAfter(a: Atom, rest: seq<byte>): (r: Parsed<Item>)
    ensures r.Read? ==> |r.rest| <= |rest|
  {
    if |rest| >= 2 && rest[0] == HYPHEN then ReadRange(a, rest[1..]) else Read(One(a), rest)
  }

  function ReadRange(first: Atom, c: seq<byte>): (r: Parsed<Item>)
    ensures r.Read? ==> |r.rest| < |c|
  {
    match ReadAtom(c)
    case Malformed => Malformed
    case Read(last, rest) => if first.b > last.b then Malformed else Read(Range(first, last), rest)
  }

  function ReadItems(c: seq<byte>, first: bool): Option<seq<Item>>
    decreases |c|
  {
    if c == [] then Some([])
    else
      match ReadItem(c, first)
      case Malformed => None
      case Read(item, rest) =>
        match ReadItems(rest, false)
        case None => None
        case Some(items) => Some([item] + items)
  }

  /** The position of the first unescaped closing bracket. */
  function UnescapedClose(s: seq<byte>): (r: Option<nat>)
    ensures r.Some? ==> r.value < |s| && s[r.value] == CLOSE
  {
    if s == [] then None
    else if s[0] == CLOSE then Some(0)
    else
      var step := if s[0] == ESCAPE then 2 else 1;
      if |s| < step then None
      else
        match UnescapedClose(s[step..])
        case None => None
        case Some(n) => Some(step + n)
  }

  function ReadMarker(s: seq<byte>): (r: Marker) {
    if s != [] && s[0] == BANG then Bang else if s != [] && s[0] == CARET then Caret else NoMarker
  }

  /** The class after its opening bracket. */
  function ReadClass(s: seq<byte>): (r: Parsed<Piece>)
    ensures r.Read? ==> |r.rest| <= |s|
  {
    var marker := ReadMarker(s);
    ReadContent(marker, s[|MarkerText(marker)|..])
  }

  function ReadContent(marker: Marker, content: seq<byte>): (r: Parsed<Piece>)
    ensures r.Read? ==> |r.rest| < |content|
  {
    match UnescapedClose(content)
    case None => Malformed
    case Some(end) =>
      if end == 0 then Malformed
      else
        match ReadItems(content[..end], true)
        case None => Malformed
        case Some(items) => Read(Class(marker, items), content[end + 1..])
  }

  function ReadPiece(s: seq<byte>): (r: Parsed<Piece>)
    requires s != []
    ensures r.Read? ==> |r.rest| < |s|
  {
    if s[0] == STAR then Read(Star, s[1..])
    else if s[0] == QUESTION then Read(Any, s[1..])
    else if s[0] == OPEN then ReadClass(s[1..])
    else if s[0] == ESCAPE then (if |s| < 2 then Malformed else Read(Literal(Escaped(s[1])), s[2..]))
    else Read(Literal(Plain(s[0])), s[1..])
  }

  /** The pieces of a pattern, None when it is malformed. */
  function Parse(s: seq<byte>): Option<seq<Piece>>
    decreases |s|
  {
    if s == [] then Some([])
    else
      match ReadPiece(s)
      case Malformed => None
      case Read(piece, rest) =>
        match Parse(rest)
        case None => None
        case Some(pieces) => Some([piece] + pieces)
  }

  // ----- What is parsed prints back and is well formed -----

  lemma Rejoin(s: seq<byte>, n: nat)
    requires n <= |s|
    ensures s == s[..n] + s[n..]
  {
  }

  lemma HeadAndTail(s: seq<byte>)
    requires s != []
    ensures s == [s[0]] + s[1..]
  {
  }

  lemma CutAfter(a: seq<byte>, x: byte, b: seq<byte>)
    ensures (a + ([x] + b))[..|a|] == a && (a + ([x] + b))[|a| + 1..] == b
  {
  }

  lemma SliceDrop(s: seq<byte>, end: nat, step: nat)
    requires step <= end <= |s|
    ensures s[..end][step..] == s[step..][..end - step]
  {
  }

  lemma SplitAround(s: seq<byte>, n: nat)
    requires n < |s|
    ensures s == s[..n] + ([s[n]] + s[n + 1..])
  {
  }

  /** Every closing bracket is escaped and no escape dangles. */
  predicate Closed(c: seq<byte>) {
    c != [] ==> c[0] != CLOSE && (if c[0] == ESCAPE then |c| >= 2 && Closed(c[2..]) else Closed(c[1..]))
  }

  lemma {:induction false} ContentIsClosed(s: seq<byte>)
    requires UnescapedClose(s).Some?
    ensures Closed(s[..UnescapedClose(s).value])
  {
    if s[0] != CLOSE {
      var step, end := if s[0] == ESCAPE then 2 else 1, UnescapedClose(s).value;
      ContentIsClosed(s[step..]);
      SliceDrop(s, end, step);
    }
  }

  lemma AtomPrintsBack(c: seq<byte>)
    requires Closed(c) && ReadAtom(c).Read?
    ensures ClassAtom(ReadAtom(c).value) && Closed(ReadAtom(c).rest)
  {
  }

  lemma RangeText(a: Atom, b: Atom, rest: seq<byte>)
    ensures AtomText(a) + ([HYPHEN] + (AtomText(b) + rest)) == ItemText(Range(a, b)) + rest
  {
    Assoc(AtomText(a), [HYPHEN], AtomText(b) + rest);
    Assoc(AtomText(a) + [HYPHEN], AtomText(b), rest);
  }

  lemma ItemPrintsBack(c: seq<byte>, first: bool)
    requires c != [] && ReadItem(c, first).Read?
    ensures c == ItemText(ReadItem(c, first).value) + ReadItem(c, first).rest
  {
    if c[0] == HYPHEN {
      HeadAndTail(c);
    } else {
      var a, rest := ReadAtom(c).value, ReadAtom(c).rest;
      if |rest| >= 2 && rest[0] == HYPHEN {
        RangePrintsBack(c, a, rest);
      }
    }
  }

  lemma RangePrintsBack(c: seq<byte>, a: Atom, rest: seq<byte>)
    requires c == AtomText(a) + rest && rest != [] && rest[0] == HYPHEN && ReadAtom(rest[1..]).Read?
    ensures c == ItemText(Range(a, ReadAtom(rest[1..]).value)) + ReadAtom(rest[1..]).rest
  {
    var b := ReadAtom(rest[1..]);
    HeadAndTail(rest);
    RangeText(a, b.value, b.rest);
  }

  lemma ItemIsWellFormed(c: seq<byte>, first: bool)
    requires c != [] && Closed(c) && ReadItem(c, first).Read?
    ensures Closed(ReadItem(c, first).rest) && ClassItem(ReadItem(c, first).value)
    ensures ReadItem(c, first).value == Hyphen ==> first || ReadItem(c, first).rest == []
  {
    if c[0] != HYPHEN {
      AtomPrintsBack(c);
      var rest := ReadAtom(c).rest;
      if |rest| >= 2 && rest[0] == HYPHEN {
        AtomPrintsBack(rest[1..]);
      }
    }
  }

  lemma {:induction false} ItemsPrintBack(c: seq<byte>, first: bool)
    requires Closed(c) && ReadItems(c, first).Some?
    ensures var items := ReadItems(c, first).value;
            ItemsText(items) == c && ClassItems(items, first) && (c != [] ==> items != [])
    decreases |c|
  {
    if c != [] {
      ItemPrintsBack(c, first);
      ItemIsWellFormed(c, first);
      var r := ReadItem(c, first);
      ItemsPrintBack(r.rest, false);
      var items := ReadItems(c, first).value;
      assert items[1..] == ReadItems(r.rest, false).value;
    }
  }

  lemma ClassText(m: Marker, items: seq<Item>, rest: seq<byte>)
    ensures [OPEN] + (MarkerText(m) + (ItemsText(items) + ([CLOSE] + rest))) == PieceText(Class(m, items)) + rest
  {
    var body := ItemsText(items);
    Assoc(body, [CLOSE], rest);
    Assoc(MarkerText(m), body + [CLOSE], rest);
    Assoc([OPEN], MarkerText(m) + (body + [CLOSE]), rest);
  }

  lemma UnmarkedContent(s: seq<byte>, body: seq<byte>, rest: seq<byte>)
    requires body != [] && s == MarkerText(ReadMarker(s)) + (body + rest) && ReadMarker(s) == NoMarker
    ensures body[0] != BANG && body[0] != CARET
  {
    assert s[0] == body[0];
  }

  lemma ClassPrintsBack(s: seq<byte>)
    requires ReadClass(s).Read?
    ensures [OPEN] + s == PieceText(ReadClass(s).value) + ReadClass(s).rest
    ensures WellFormedPiece(ReadClass(s).value)
  {
    MarkerSplits(s);
    ContentPrintsBack(s, s[|MarkerText(ReadMarker(s))|..]);
  }

  lemma MarkerSplits(s: seq<byte>)
    ensures s == MarkerText(ReadMarker(s)) + s[|MarkerText(ReadMarker(s))|..]
  {
  }

  lemma ContentPrintsBack(s: seq<byte>, content: seq<byte>)
    requires s == MarkerText(ReadMarker(s)) + content && ReadContent(ReadMarker(s), content).Read?
    ensures var r := ReadContent(ReadMarker(s), content);
            WellFormedPiece(r.value) && [OPEN] + s == PieceText(r.value) + r.rest
  {
    var m, end := ReadMarker(s), UnescapedClose(content).value;
    var body, rest := content[..end], content[end + 1..];
    var items := ReadItems(body, true).value;
    ContentIsClosed(content);
    ItemsPrintBack(body, true);
    FirstByteOfItems(items);
    SplitAround(content, end);
    ClassText(m, items, rest);
    if m == NoMarker {
      UnmarkedContent(s, body, [CLOSE] + rest);
    }
  }

  lemma FirstByteOfItems(items: seq<Item>)
    requires items != []
    ensures ItemText(items[0]) != [] && ItemsText(items) != [] && ItemsText(items)[0] == ItemText(items[0])[0]
  {
  }

  lemma PiecePrintsBack(s: seq<byte>)
    requires s != [] && ReadPiece(s).Read?
    ensures s == PieceText(ReadPiece(s).value) + ReadPiece(s).rest && WellFormedPiece(ReadPiece(s).value)
  {
    if s[0] == OPEN {
      ClassPrintsBack(s[1..]);
      HeadAndTail(s);
    } else {
      BytePrintsBack(s);
    }
  }

  lemma BytePrintsBack(s: seq<byte>)
    requires s != [] && ReadPiece(s).Read? && s[0] != OPEN
    ensures s == PieceText(ReadPiece(s).value) + ReadPiece(s).rest && WellFormedPiece(ReadPiece(s).value)
  {
    Rejoin(s, if s[0] == ESCAPE then 2 else 1);
  }

  lemma {:induction false} PrintInvertsParse(s: seq<byte>)
    requires Parse(s).Some?
    ensures PatternText(Parse(s).value) == s && WellFormed(Parse(s).value)
    decreases |s|
  {
    if s != [] {
      PiecePrintsBack(s);
      var rest := ReadPiece(s).rest;
      PrintInvertsParse(rest);
      assert Parse(s).value[1..] == Parse(rest).value;
    }
  }

  // ----- What is printed parses back -----

  lemma AtomReads(a: Atom, rest: seq<byte>)
    requires ClassAtom(a)
    ensures ReadAtom(AtomText(a) + rest) == Read(a, rest)
  {
    Cut(AtomText(a), rest);
  }

  lemma ItemReads(item: Item, rest: seq<byte>, first: bool)
    requires ClassItem(item) && (item == Hyphen ==> first || rest == [])
    requires item.One? && |rest| >= 2 ==> rest[0] != HYPHEN
    ensures ItemText(item) != [] && ReadItem(ItemText(item) + rest, first) == Read(item, rest)
  {
    match item
    case Hyphen =>
      assert ([HYPHEN] + rest)[1..] == rest;
    case One(a) =>
      AtomReads(a, rest);
    case Range(a, b) =>
      var tail := AtomText(b) + rest;
      Assoc(AtomText(a), [HYPHEN], AtomText(b));
      Assoc(AtomText(a), [HYPHEN] + AtomText(b), rest);
      Assoc([HYPHEN], AtomText(b), rest);
      AtomReads(a, [HYPHEN] + tail);
      assert ([HYPHEN] + tail)[1..] == tail;
      AtomReads(b, rest);
  }

  lemma {:induction false} ItemsRead(items: seq<Item>, first: bool)
    requires ClassItems(items, first)
    ensures ReadItems(ItemsText(items), first) == Some(items)
  {
    if items != [] {
      var tail := items[1..];
      LaterItems(tail);
      ItemReads(items[0], ItemsText(tail), first);
      ItemsRead(tail, false);
      assert items == [items[0]] + tail;
    }
  }

  /** After the first item a leading hyphen is the whole rest of the class. */
  lemma LaterItems(items: seq<Item>)
    requires ClassItems(items, false)
    ensures |ItemsText(items)| >= 2 ==> ItemsText(items)[0] != HYPHEN
    ensures items == [] ==> ItemsText(items) == []
  {
    if items != [] {
      FirstByteOfItems(items);
      if items[0] == Hyphen {
        assert items[1..] == [];
      }
    }
  }

  lemma ClosedAtom(a: Atom, rest: seq<byte>)
    requires ClassAtom(a) && Closed(rest)
    ensures Closed(AtomText(a) + rest)
  {
    assert (AtomText(a) + rest)[|AtomText(a)|..] == rest;
  }

  lemma {:induction false} ClosedItems(items: seq<Item>, first: bool)
    requires ClassItems(items, first)
    ensures Closed(ItemsText(items))
  {
    if items != [] {
      var rest := ItemsText(items[1..]);
      ClosedItems(items[1..], false);
      assert ([HYPHEN] + rest)[1..] == rest;
      match items[0]
      case Hyphen =>
      case One(a) =>
        ClosedAtom(a, rest);
      case Range(a, b) =>
        var tail := AtomText(b) + rest;
        ClosedAtom(b, rest);
        assert ([HYPHEN] + tail)[1..] == tail;
        ClosedAtom(a, [HYPHEN] + tail);
        Assoc(AtomText(a) + [HYPHEN], AtomText(b), rest);
        Assoc(AtomText(a), [HYPHEN], tail);
    }
  }

  lemma DropFirst(a: seq<byte>, b: seq<byte>, n: nat)
    requires n <= |a|
    ensures (a + b)[n..] == a[n..] + b
  {
  }

  lemma {:induction false} FindsTheClose(c: seq<byte>, rest: seq<byte>)
    requires Closed(c)
    ensures UnescapedClose(c + ([CLOSE] + rest)) == Some(|c|)
  {
    if c == [] {
      assert c + ([CLOSE] + rest) == [CLOSE] + rest;
    } else {
      var step := if c[0] == ESCAPE then 2 else 1;
      FindsTheClose(c[step..], rest);
      DropFirst(c, [CLOSE] + rest, step);
    }
  }

  lemma MarkerReads(m: Marker, content: seq<byte>)
    requires content != [] && (m == NoMarker ==> content[0] != BANG && content[0] != CARET)
    ensures ReadMarker(MarkerText(m) + content) == m
  {
  }

  lemma ClassReads(m: Marker, items: seq<Item>, rest: seq<byte>)
    requires WellFormedPiece(Class(m, items))
    ensures ReadClass(MarkerText(m) + (ItemsText(items) + ([CLOSE] + rest))) == Read(Class(m, items), rest)
  {
    var content := ItemsText(items) + ([CLOSE] + rest);
    ContentReads(m, items, rest);
    FirstByteOfItems(items);
    MarkerReads(m, content);
    Cut(MarkerText(m), content);
  }

  lemma ContentReads(m: Marker, items: seq<Item>, rest: seq<byte>)
    requires items != [] && ClassItems(items, true)
    ensures ReadContent(m, ItemsText(items) + ([CLOSE] + rest)) == Read(Class(m, items), rest)
  {
    var body := ItemsText(items);
    ItemsRead(items, true);
    ClosedItems(items, true);
    FindsTheClose(body, rest);
    FirstByteOfItems(items);
    CutAfter(body, CLOSE, rest);
  }

  lemma PieceReads(piece: Piece, rest: seq<byte>)
    requires WellFormedPiece(piece)
    ensures PieceText(piece) != [] && ReadPiece(PieceText(piece) + rest) == Read(piece, rest)
  {
    Cut(PieceText(piece), rest);
    if piece.Class? {
      var m, body := MarkerText(piece.marker), ItemsText(piece.items);
      ClassReads(piece.marker, piece.items, rest);
      Assoc([OPEN], m + (body + [CLOSE]), rest);
      Assoc(m, body + [CLOSE], rest);
      Assoc(body, [CLOSE], rest);
      Cut([OPEN], m + (body + ([CLOSE] + rest)));
    }
  }

  lemma ParseOnce(s: seq<byte>, piece: Piece, rest: seq<byte>)
    requires s != [] && ReadPiece(s) == Read(piece, rest) && Parse(rest).Some?
    ensures Parse(s) == Some([piece] + Parse(rest).value)
  {
  }

  lemma {:induction false} ParseInvertsPrint(pieces: seq<Piece>)
    requires WellFormed(pieces)
    ensures Parse(PatternText(pieces)) == Some(pieces)
  {
    if pieces != [] {
      var piece, tail := pieces[0], pieces[1..];
      WellFormedTail(pieces);
      PieceReads(piece, PatternText(tail));
      ParseInvertsPrint(tail);
      PiecesParse(pieces, piece, tail);
    }
  }

  lemma WellFormedTail(pieces: seq<Piece>)
    requires WellFormed(pieces) && pieces != []
    ensures WellFormedPiece(pieces[0]) && WellFormed(pieces[1..])
  {
  }

  lemma PiecesParse(pieces: seq<Piece>, piece: Piece, tail: seq<Piece>)
    requires pieces != [] && piece == pieces[0] && tail == pieces[1..] && PieceText(piece) != []
    requires ReadPiece(PieceText(piece) + PatternText(tail)) == Read(piece, PatternText(tail))
    requires Parse(PatternText(tail)) == Some(tail)
    ensures Parse(PatternText(pieces)) == Some(pieces)
  {
    ParseOnce(PatternText(pieces), piece, PatternText(tail));
    assert pieces == [piece] + tail;
  }

  /** A pattern is valid exactly when it is the text of well-formed pieces, and then of only one list. */
  lemma ValidExactlyInTheGrammar(s: seq<byte>, pieces: seq<Piece>)
    ensures Parse(s).Some? <==> exists ps {:trigger PatternText(ps)} :: WellFormed(ps) && PatternText(ps) == s
    ensures WellFormed(pieces) && PatternText(pieces) == s ==> Parse(s) == Some(pieces)
  {
    if Parse(s).Some? {
      PrintInvertsParse(s);
    }
    if ps :| WellFormed(ps) && PatternText(ps) == s {
      ParseInvertsPrint(ps);
    }
    if WellFormed(pieces) {
      ParseInvertsPrint(pieces);
    }
  }
}
