/** The glob language and the two-row matcher of src/common/ascii_glob.c. */
module GlobMatcher {
  import opened Bytes
  import opened AsciiGlob
  import opened GlobLanguage

  lemma SuffixOfSuffix(s: seq<byte>, i: nat, j: nat)
    requires i + j <= |s|
    ensures s[i..][j..] == s[i + j..]
  {
  }

  lemma PrefixOfSuffix(s: seq<byte>, i: nat, j: nat)
    requires i <= j <= |s|
    ensures s[i..][..j - i] == s[..j][i..]
  {
  }

  lemma MatchesStar(pieces: seq<Piece>, text: seq<byte>, k: nat)
    requires pieces != [] && pieces[0] == Star && k <= |text| && Matches(pieces[1..], text[k..])
    ensures Matches(pieces, text)
  {
  }

  /** A star at the end stands for any suffix. */
  lemma {:induction false} EndsInStar(pieces: seq<Piece>, text: seq<byte>)
    ensures Matches(pieces + [Star], text) <==>
      exists k {:trigger text[..k]} :: 0 <= k <= |text| && Matches(pieces, text[..k])
  {
    var whole := pieces + [Star];
    if pieces == [] {
      assert whole[1..] == [];
      assert text[|text|..] == [] && text[..0] == [];
      MatchesStarAlone(text);
    } else {
      var tail := pieces[1..];
      assert whole[0] == pieces[0] && whole[1..] == tail + [Star];
      if Matches(whole, text) {
        var i := if pieces[0] == Star then (var i :| 0 <= i <= |text| && Matches(whole[1..], text[i..]); i) else 1;
        EndsInStar(tail, text[i..]);
        var k :| 0 <= k <= |text[i..]| && Matches(tail, text[i..][..k]);
        PrefixOfSuffix(text, i, i + k);
        if pieces[0] == Star {
          MatchesStar(pieces, text[..i + k], i);
        }
        assert Matches(pieces, text[..i + k]);
      }
      if k :| 0 <= k <= |text| && Matches(pieces, text[..k]) {
        var i := if pieces[0] == Star then (var i :| 0 <= i <= k && Matches(tail, text[..k][i..]); i) else 1;
        PrefixOfSuffix(text, i, k);
        EndsInStar(tail, text[i..]);
        assert Matches(tail, text[i..][..k - i]);
        if pieces[0] == Star {
          MatchesStar(whole, text, i);
        }
      }
    }
  }

  lemma MatchesStarAlone(text: seq<byte>)
    ensures Matches([Star], text) && Matches([], text[..0])
  {
    assert [Star][1..] == [];
    assert Matches([], text[|text|..]);
    MatchesStar([Star], text, |text|);
  }

  /** The pieces end in a piece for the last byte of the text. */
  ghost predicate LastByte(pieces: seq<Piece>, piece: Piece, text: seq<byte>) {
    text != [] && Accepts(piece, text[|text| - 1]) && Matches(pieces, text[..|text| - 1])
  }

  lemma LastByteOfSuffix(pieces: seq<Piece>, piece: Piece, text: seq<byte>, i: nat)
    requires i <= |text|
    ensures LastByte(pieces, piece, text[i..]) ==> i < |text|
    ensures i < |text| ==> LastByte(pieces, piece, text[i..])
                             == (Accepts(piece, text[|text| - 1]) && Matches(pieces, text[..|text| - 1][i..]))
  {
    if i < |text| {
      PrefixOfSuffix(text, i, |text| - 1);
    }
  }

  /** Any other piece at the end stands for the last byte. */
  lemma {:induction false} EndsInByte(pieces: seq<Piece>, piece: Piece, text: seq<byte>)
    requires piece != Star
    ensures Matches(pieces + [piece], text) <==> LastByte(pieces, piece, text)
  {
    var whole, n := pieces + [piece], |text|;
    if pieces == [] {
      assert whole == [piece] && whole[1..] == [];
      if text != [] {
        assert text[1..] == [] <==> text[..n - 1] == [];
      }
    } else {
      var tail := pieces[1..];
      assert whole[0] == pieces[0] && whole[1..] == tail + [piece];
      forall i: nat | i <= n ensures Matches(whole[1..], text[i..]) == LastByte(tail, piece, text[i..]) {
        EndsInByte(tail, piece, text[i..]);
      }
      if pieces[0] == Star {
        StarThenByte(pieces, piece, text);
      } else if text != [] {
        LastByteOfSuffix(tail, piece, text, 1);
      }
    }
  }

  lemma StarThenByte(pieces: seq<Piece>, piece: Piece, text: seq<byte>)
    requires pieces != [] && pieces[0] == Star
    ensures (exists i: nat {:trigger text[i..]} :: i <= |text| && LastByte(pieces[1..], piece, text[i..]))
            <==> LastByte(pieces, piece, text)
  {
    if i: nat :| i <= |text| && LastByte(pieces[1..], piece, text[i..]) {
      StarTakesUpTo(pieces, piece, text, i);
    }
    if LastByte(pieces, piece, text) {
      var i := StarStops(pieces, piece, text);
    }
  }

  lemma StarTakesUpTo(pieces: seq<Piece>, piece: Piece, text: seq<byte>, i: nat)
    requires pieces != [] && pieces[0] == Star && i <= |text| && LastByte(pieces[1..], piece, text[i..])
    ensures LastByte(pieces, piece, text)
  {
    LastByteOfSuffix(pieces[1..], piece, text, i);
    MatchesStar(pieces, text[..|text| - 1], i);
  }

  lemma StarStops(pieces: seq<Piece>, piece: Piece, text: seq<byte>) returns (i: nat)
    requires pieces != [] && pieces[0] == Star && LastByte(pieces, piece, text)
    ensures i <= |text| && LastByte(pieces[1..], piece, text[i..])
  {
    i :| 0 <= i <= |text| - 1 && Matches(pieces[1..], text[..|text| - 1][i..]);
    LastByteOfSuffix(pieces[1..], piece, text, i);
  }

  // ----- Rows -----

  /** The row of a pattern prefix: which prefixes of the text it matches. */
  ghost predicate IsRow(row: seq<bool>, pieces: seq<Piece>, text: seq<byte>) {
    |row| == |text| + 1 && forall j {:trigger row[j]} :: 0 <= j <= |text| ==> row[j] == Matches(pieces, text[..j])
  }

  predicate IsStarRow(row: seq<bool>, next: seq<bool>) {
    |next| == |row| && forall j {:trigger next[j]} :: 0 <= j < |row| ==> next[j] == exists i :: 0 <= i <= j && row[i]
  }

  predicate IsByteRow(row: seq<bool>, next: seq<bool>, piece: Piece, text: seq<byte>) {
    && |row| == |next| == |text| + 1 && !next[0]
    && forall j {:trigger next[j]} :: 0 < j <= |text| ==> next[j] == (row[j - 1] && Accepts(piece, text[j - 1]))
  }

  lemma StarRowStep(row: seq<bool>, next: seq<bool>, pieces: seq<Piece>, text: seq<byte>)
    requires IsRow(row, pieces, text) && IsStarRow(row, next)
    ensures IsRow(next, pieces + [Star], text)
  {
    forall j | 0 <= j <= |text| ensures next[j] == Matches(pieces + [Star], text[..j]) {
      EndsInStar(pieces, text[..j]);
      forall i | 0 <= i <= j ensures text[..j][..i] == text[..i] {
      }
      if next[j] {
        var i :| 0 <= i <= j && row[i];
        assert Matches(pieces, text[..j][..i]);
      }
      if k :| 0 <= k <= |text[..j]| && Matches(pieces, text[..j][..k]) {
        assert row[k];
      }
    }
  }

  lemma ByteRowStep(row: seq<bool>, next: seq<bool>, pieces: seq<Piece>, piece: Piece, text: seq<byte>)
    requires IsRow(row, pieces, text) && piece != Star && IsByteRow(row, next, piece, text)
    ensures IsRow(next, pieces + [piece], text)
  {
    forall j | 0 <= j <= |text| ensures next[j] == Matches(pieces + [piece], text[..j]) {
      EndsInByte(pieces, piece, text[..j]);
      if j > 0 {
        assert text[..j][..j - 1] == text[..j - 1];
      }
    }
  }

  /** Closing a row under a second star changes nothing. */
  lemma StarsCollapse(row: seq<bool>, pieces: seq<Piece>, text: seq<byte>)
    requires IsRow(row, pieces + [Star], text)
    ensures IsRow(row, pieces + [Star] + [Star], text)
  {
    forall j | 0 <= j < |row| ensures row[j] == exists i :: 0 <= i <= j && row[i] {
      if i :| 0 <= i <= j && row[i] {
        RowOfStarIsUpward(row, pieces, text, i, j);
      }
    }
    StarRowStep(row, row, pieces + [Star], text);
  }

  lemma RowOfStarIsUpward(row: seq<bool>, pieces: seq<Piece>, text: seq<byte>, i: nat, j: nat)
    requires IsRow(row, pieces + [Star], text) && i <= j <= |text| && row[i]
    ensures row[j]
  {
    EndsInStar(pieces, text[..i]);
    EndsInStar(pieces, text[..j]);
    var k :| 0 <= k <= |text[..i]| && Matches(pieces, text[..i][..k]);
    assert text[..i][..k] == text[..j][..k];
    assert Matches(pieces, text[..j][..k]);
  }

  method StarRow(previous: array<bool>, current: array<bool>)
    requires previous != current && previous.Length == current.Length > 0
    modifies current
    ensures IsStarRow(previous[..], current[..])
  {
    current[0] := previous[0];
    for index := 1 to previous.Length
      invariant forall j {:trigger current[j]} :: 0 <= j < index ==>
        current[j] == exists i :: 0 <= i <= j && previous[i]
    {
      current[index] := previous[index] || current[index - 1];
    }
  }

  method AnyRow(previous: array<bool>, current: array<bool>, text: seq<byte>)
    requires previous != current && previous.Length == current.Length == |text| + 1
    modifies current
    ensures IsByteRow(previous[..], current[..], Any, text)
  {
    current[0] := false;
    for index := 1 to previous.Length
      invariant !current[0] && forall j {:trigger current[j]} :: 0 < j < index ==> current[j] == previous[j - 1]
    {
      current[index] := previous[index - 1];
    }
  }

  method LiteralRow(previous: array<bool>, current: array<bool>, text: seq<byte>, atom: Atom)
    requires previous != current && previous.Length == current.Length == |text| + 1
    modifies current
    ensures IsByteRow(previous[..], current[..], Literal(atom), text)
  {
    current[0] := false;
    for index := 1 to previous.Length
      invariant !current[0]
      invariant forall j {:trigger current[j]} :: 0 < j < index ==>
        current[j] == (previous[j - 1] && text[j - 1] == atom.b)
    {
      current[index] := previous[index - 1] && text[index - 1] == atom.b;
    }
  }

  // ----- Classes -----

  predicate Hit(item: Item, target: Option<byte>) {
    target.Some? && InItem(item, target.value)
  }

  lemma DropOne(s: seq<byte>, i: nat, end: nat)
    requires i < end <= |s|
    ensures s[i..end][1..] == s[i + 1..end] && s[i..end][0] == s[i]
  {
  }

  lemma HyphenItem(pattern: seq<byte>, i: nat, end: nat, first: bool)
    requires i < end <= |pattern|
    ensures var c := pattern[i..end];
            if pattern[i] == HYPHEN
            then ReadItem(c, first) == if first || i + 1 == end then Read(Hyphen, pattern[i + 1..end]) else Malformed
            else ReadItem(c, first) ==
                 match ReadAtom(c) case Malformed => Malformed case Read(a, rest) => ReadAfter(a, rest)
  {
    DropOne(pattern, i, end);
  }

  /** One item of the class content pattern[i..end], and whether it holds the target. */
  method StepItem(pattern: seq<byte>, i: nat, end: nat, first: bool, target: Option<byte>)
    returns (ok: bool, next: nat, hit: bool)
    requires i < end <= |pattern|
    ensures ok == ReadItem(pattern[i..end], first).Read?
    ensures ok ==> i < next <= end && ReadItem(pattern[i..end], first).rest == pattern[next..end]
    ensures ok ==> hit == Hit(ReadItem(pattern[i..end], first).value, target)
  {
    HyphenItem(pattern, i, end, first);
    next, hit := i, false;
    if pattern[i] == HYPHEN {
      return first || i + 1 == end, i + 1, target == Some(HYPHEN);
    }
    var atom;
    ok, next, atom := StepAtom(pattern, i, end);
    if ok {
      ok, next, hit := StepAfter(pattern, next, end, atom, target);
    }
  }

  /** The rest of an item behind its first atom. */
  method StepAfter(pattern: seq<byte>, i: nat, end: nat, low: Atom, target: Option<byte>)
    returns (ok: bool, next: nat, hit: bool)
    requires i <= end <= |pattern|
    ensures ok == ReadAfter(low, pattern[i..end]).Read?
    ensures ok ==> i <= next <= end && ReadAfter(low, pattern[i..end]).rest == pattern[next..end]
    ensures ok ==> hit == Hit(ReadAfter(low, pattern[i..end]).value, target)
  {
    next := i;
    if i < end && pattern[i] == HYPHEN && i + 1 < end {
      DropOne(pattern, i, end);
      var high;
      ok, next, high := StepAtom(pattern, i + 1, end);
      if !ok || low.b > high.b {
        return false, next, false;
      }
      hit := target.Some? && low.b <= target.value <= high.b;
    } else {
      ok, hit := true, target == Some(low.b);
    }
  }

  method StepAtom(pattern: seq<byte>, i: nat, end: nat) returns (ok: bool, next: nat, atom: Atom)
    requires i < end <= |pattern|
    ensures ok == ReadAtom(pattern[i..end]).Read?
    ensures ok ==> i < next <= end && ReadAtom(pattern[i..end]) == Read(atom, pattern[next..end])
  {
    if pattern[i] == ESCAPE {
      if i + 1 >= end {
        return false, i, Plain(0);
      }
      return true, i + 2, Escaped(pattern[i + 1]);
    }
    return pattern[i] != HYPHEN, i + 1, Plain(pattern[i]);
  }

  lemma CloseStep(pattern: seq<byte>, end: nat)
    requires end < |pattern| && pattern[end] != CLOSE
    ensures var step := if pattern[end] == ESCAPE then 2 else 1;
            if end + step > |pattern| then UnescapedClose(pattern[end..]).None?
            else
              && UnescapedClose(pattern[end..]).Some? == UnescapedClose(pattern[end + step..]).Some?
              && (UnescapedClose(pattern[end + step..]).Some? ==>
                    UnescapedClose(pattern[end..]).value == step + UnescapedClose(pattern[end + step..]).value)
  {
    var step := if pattern[end] == ESCAPE then 2 else 1;
    if end + step <= |pattern| {
      SuffixOfSuffix(pattern, end, step);
    }
  }

  /** The position of the first unescaped closing bracket from `content` on. */
  method FindClose(pattern: seq<byte>, content: nat) returns (found: bool, end: nat)
    requires content <= |pattern|
    ensures found == UnescapedClose(pattern[content..]).Some?
    ensures found ==> end == content + UnescapedClose(pattern[content..]).value
  {
    end := content;
    ghost var whole := UnescapedClose(pattern[content..]);
    while end < |pattern| && pattern[end] != CLOSE
      invariant content <= end <= |pattern|
      invariant whole.Some? == UnescapedClose(pattern[end..]).Some?
      invariant whole.Some? ==> content + whole.value == end + UnescapedClose(pattern[end..]).value
    {
      CloseStep(pattern, end);
      if pattern[end] == ESCAPE {
        end := end + 1;
        if end == |pattern| {
          return false, end;
        }
      }
      end := end + 1;
    }
    found := end < |pattern|;
  }

  function Extend(items: seq<Item>, r: Option<seq<Item>>): Option<seq<Item>> {
    if r.None? then None else Some(items + r.value)
  }

  lemma ExtendOne(items: seq<Item>, item: Item, r: Option<seq<Item>>)
    ensures Extend(items, Extend([item], r)) == Extend(items + [item], r)
  {
    if r.Some? {
      assert items + ([item] + r.value) == items + [item] + r.value;
    }
  }

  lemma ExtendNone(r: Option<seq<Item>>)
    ensures Extend([], r) == r
  {
    if r.Some? {
      assert [] + r.value == r.value;
    }
  }

  lemma ItemsStep(items: seq<Item>, c: seq<byte>, first: bool)
    requires c != []
    ensures match ReadItem(c, first)
            case Malformed => Extend(items, ReadItems(c, first)).None?
            case Read(item, rest) =>
              Extend(items, ReadItems(c, first)) == Extend(items + [item], ReadItems(rest, false))
  {
    var r := ReadItem(c, first);
    if r.Read? {
      ExtendOne(items, r.value, ReadItems(r.rest, false));
    }
  }

  lemma InItemsGrows(items: seq<Item>, item: Item, b: byte)
    ensures InItems(items + [item], b) == (InItems(items, b) || InItem(item, b))
  {
    var all := items + [item];
    assert all[|items|] == item;
    if i :| 0 <= i < |items| && InItem(items[i], b) {
      assert all[i] == items[i];
    }
  }

  /** The items of pattern[content..end]: their validity does not depend on the target. */
  method ScanItems(pattern: seq<byte>, content: nat, end: nat, target: Option<byte>) returns (ok: bool, matched: bool)
    requires content < end <= |pattern|
    ensures ok == ReadItems(pattern[content..end], true).Some?
    ensures ok && target.Some? ==> matched == InItems(ReadItems(pattern[content..end], true).value, target.value)
  {
    ghost var whole := ReadItems(pattern[content..end], true);
    ghost var items: seq<Item> := [];
    var cursor, count := content, 0;
    ExtendNone(whole);
    matched := false;
    while cursor < end
      invariant content <= cursor <= end && 0 <= count && (count == 0 <==> cursor == content)
      invariant whole == Extend(items, ReadItems(pattern[cursor..end], count == 0))
      invariant target.Some? ==> matched == InItems(items, target.value)
    {
      var next, hit;
      ghost var here, first := pattern[cursor..end], count == 0;
      ok, next, hit := StepItem(pattern, cursor, end, count == 0, target);
      ItemsStep(items, here, first);
      if !ok {
        return;
      }
      ghost var item := ReadItem(here, first).value;
      if target.Some? {
        InItemsGrows(items, item, target.value);
      }
      items := items + [item];
      matched := matched || hit;
      cursor, count := next, count + 1;
    }
    ok := true;
    assert pattern[cursor..end] == [] && items + [] == items;
  }

  /** `parse_class`: the class whose opening bracket is at `cursor`. */
  method ScanClass(pattern: seq<byte>, cursor: nat, target: Option<byte>) returns (ok: bool, after: nat, matched: bool)
    requires cursor < |pattern| && pattern[cursor] == OPEN
    ensures ok == ReadClass(pattern[cursor + 1..]).Read?
    ensures ok ==> cursor < after <= |pattern| && ReadClass(pattern[cursor + 1..]).rest == pattern[after..]
    ensures ok && target.Some? ==> matched == Accepts(ReadClass(pattern[cursor + 1..]).value, target.value)
  {
    after, matched := cursor, false;
    var content := cursor + 1;
    var negated := false;
    if content < |pattern| && (pattern[content] == BANG || pattern[content] == CARET) {
      negated, content := true, content + 1;
    }
    ClassResult(pattern, cursor + 1, content);
    ok, after, matched := ScanContent(pattern, content, target, ReadMarker(pattern[cursor + 1..]));
    matched := if negated then !matched else matched;
  }

  lemma MarkerAt(pattern: seq<byte>, i: nat)
    requires i <= |pattern|
    ensures var m := ReadMarker(pattern[i..]);
            && i + |MarkerText(m)| <= |pattern| && pattern[i..][|MarkerText(m)|..] == pattern[i + |MarkerText(m)|..]
            && (m == NoMarker <==> !(i < |pattern| && (pattern[i] == BANG || pattern[i] == CARET)))
  {
    SuffixOfSuffix(pattern, i, |MarkerText(ReadMarker(pattern[i..]))|);
  }

  lemma ClassResult(pattern: seq<byte>, i: nat, content: nat)
    requires i <= content <= |pattern|
    requires content == if i < |pattern| && (pattern[i] == BANG || pattern[i] == CARET) then i + 1 else i
    ensures ReadClass(pattern[i..]) == ReadContent(ReadMarker(pattern[i..]), pattern[content..])
    ensures ReadMarker(pattern[i..]) == NoMarker <==> content == i
  {
    MarkerAt(pattern, i);
  }

  lemma ContentAt(pattern: seq<byte>, content: nat, end: nat)
    requires content <= end < |pattern|
    ensures pattern[content..][..end - content] == pattern[content..end]
    ensures pattern[content..][end - content + 1..] == pattern[end + 1..]
  {
  }

  /** The class that items and what follows their closing bracket make. */
  function ClassOf(m: Marker, items: Option<seq<Item>>, rest: seq<byte>): Parsed<Piece> {
    match items
    case None => Malformed
    case Some(items) => Read(Class(m, items), rest)
  }

  lemma ContentSplits(m: Marker, content: seq<byte>, end: nat, inner: seq<byte>, rest: seq<byte>)
    requires UnescapedClose(content) == Some(end) && 0 < end < |content|
    requires inner == content[..end] && rest == content[end + 1..]
    ensures ReadContent(m, content) == ClassOf(m, ReadItems(inner, true), rest)
  {
  }

  lemma ContentResult(m: Marker, pattern: seq<byte>, content: nat, end: nat)
    requires content < end < |pattern| && UnescapedClose(pattern[content..]) == Some(end - content)
    ensures ReadContent(m, pattern[content..]) == ClassOf(m, ReadItems(pattern[content..end], true), pattern[end + 1..])
  {
    ContentAt(pattern, content, end);
    ContentSplits(m, pattern[content..], end - content, pattern[content..end], pattern[end + 1..]);
  }

  method ScanContent(pattern: seq<byte>, content: nat, target: Option<byte>, ghost m: Marker)
    returns (ok: bool, after: nat, matched: bool)
    requires content <= |pattern|
    ensures ok == ReadContent(m, pattern[content..]).Read?
    ensures ok ==> content < after <= |pattern| && ReadContent(m, pattern[content..]).rest == pattern[after..]
    ensures ok && target.Some? ==> matched == InItems(ReadContent(m, pattern[content..]).value.items, target.value)
  {
    var end;
    after, matched := content, false;
    ok, end := FindClose(pattern, content);
    if !ok {
      return;
    }
    after := end + 1;
    if content == end {
      return false, after, false;
    }
    ContentResult(m, pattern, content, end);
    ok, matched := ScanItems(pattern, content, end, target);
  }

  method ClassRow(previous: array<bool>, current: array<bool>, text: seq<byte>, pattern: seq<byte>, cursor: nat)
    returns (ok: bool, after: nat)
    requires previous != current && previous.Length == current.Length == |text| + 1
    requires cursor < |pattern| && pattern[cursor] == OPEN
    modifies current
    ensures ok == ReadClass(pattern[cursor + 1..]).Read?
    ensures ok ==> cursor < after <= |pattern| && ReadClass(pattern[cursor + 1..]).rest == pattern[after..]
    ensures ok ==> IsByteRow(previous[..], current[..], ReadClass(pattern[cursor + 1..]).value, text)
  {
    ghost var r := ReadClass(pattern[cursor + 1..]);
    ok, after := true, cursor;
    current[0] := false;
    for index := 1 to previous.Length
      invariant ok && !current[0]
        && (index > 1 ==> r.Read? && cursor < after <= |pattern| && r.rest == pattern[after..])
      invariant forall j {:trigger current[j]} :: 0 < j < index ==>
        current[j] == (previous[j - 1] && Accepts(r.value, text[j - 1]))
    {
      var matched;
      ok, after, matched := ScanClass(pattern, cursor, Some(text[index - 1]));
      if !ok {
        return;
      }
      current[index] := previous[index - 1] && matched;
    }
    if |text| == 0 {
      var unused;
      ok, after, unused := ScanClass(pattern, cursor, None);
    }
  }

  // ----- Whole patterns -----

  function ExtendPieces(pieces: seq<Piece>, r: Option<seq<Piece>>): Option<seq<Piece>> {
    if r.None? then None else Some(pieces + r.value)
  }

  lemma PieceStep(pieces: seq<Piece>, s: seq<byte>)
    requires s != []
    ensures match ReadPiece(s)
            case Malformed => ExtendPieces(pieces, Parse(s)).None?
            case Read(piece, rest) => ExtendPieces(pieces, Parse(s)) == ExtendPieces(pieces + [piece], Parse(rest))
  {
    var r := ReadPiece(s);
    if r.Read? && Parse(r.rest).Some? {
      assert pieces + ([r.value] + Parse(r.rest).value) == pieces + [r.value] + Parse(r.rest).value;
    }
  }

  lemma PiecesDone(pieces: seq<Piece>, r: Option<seq<Piece>>)
    ensures ExtendPieces([], r) == r && ExtendPieces(pieces, Parse([])) == Some(pieces)
  {
    assert pieces + [] == pieces;
    if r.Some? {
      assert [] + r.value == r.value;
    }
  }

  /** `ascii_glob_validate`. */
  method Validate(pattern: seq<byte>) returns (ok: bool)
    ensures ok == Parse(pattern).Some?
  {
    var cursor := 0;
    while cursor < |pattern|
      invariant cursor <= |pattern|
      invariant Parse(pattern).Some? == Parse(pattern[cursor..]).Some?
    {
      ghost var here := pattern[cursor..];
      PieceStep([], here);
      if pattern[cursor] == ESCAPE {
        cursor := cursor + 1;
        if cursor == |pattern| {
          return false;
        }
        cursor := cursor + 1;
      } else if pattern[cursor] == OPEN {
        var unused;
        SuffixOfSuffix(pattern, cursor, 1);
        ok, cursor, unused := ScanClass(pattern, cursor, None);
        if !ok {
          return;
        }
      } else {
        cursor := cursor + 1;
      }
      assert ReadPiece(here).rest == pattern[cursor..];
    }
    ok := true;
  }

  function Stars(k: nat): seq<Piece> {
    if k == 0 then [] else Stars(k - 1) + [Star]
  }

  lemma NoStars(pieces: seq<Piece>)
    ensures pieces + Stars(0) == pieces
  {
  }

  /** `whole` is what is read once `k` stars are taken. */
  ghost predicate Behind(whole: Option<seq<Piece>>, pieces: seq<Piece>, k: nat, pattern: seq<byte>, next: nat) {
    next <= |pattern| && whole == ExtendPieces(pieces + Stars(k), Parse(pattern[next..]))
  }

  lemma StarStep(whole: Option<seq<Piece>>, pieces: seq<Piece>, k: nat, pattern: seq<byte>, next: nat)
    requires next < |pattern| && pattern[next] == STAR
    requires Behind(whole, pieces, k, pattern, next)
    ensures Behind(whole, pieces, k + 1, pattern, next + 1)
  {
    PieceStep(pieces + Stars(k), pattern[next..]);
    SuffixOfSuffix(pattern, next, 1);
    assert pieces + Stars(k) + [Star] == pieces + Stars(k + 1);
  }

  method SkipStars(pattern: seq<byte>, cursor: nat, ghost pieces: seq<Piece>) returns (next: nat, ghost k: nat)
    requires cursor < |pattern| && pattern[cursor] == STAR
    ensures cursor < next <= |pattern| && k > 0
    ensures ExtendPieces(pieces, Parse(pattern[cursor..])) == ExtendPieces(pieces + Stars(k), Parse(pattern[next..]))
  {
    next, k := cursor, 0;
    NoStars(pieces);
    ghost var whole := ExtendPieces(pieces, Parse(pattern[cursor..]));
    while next < |pattern| && pattern[next] == STAR
      invariant cursor <= next <= |pattern| && (k > 0 <==> next > cursor)
      invariant Behind(whole, pieces, k, pattern, next)
    {
      StarStep(whole, pieces, k, pattern, next);
      next, k := next + 1, k + 1;
    }
  }

  /** One row serves a whole run of stars. */
  lemma {:induction false} StarRunStep(row: seq<bool>, next: seq<bool>, pieces: seq<Piece>, k: nat, text: seq<byte>)
    requires IsRow(row, pieces, text) && IsStarRow(row, next) && k > 0
    ensures IsRow(next, pieces + Stars(k), text)
  {
    if k == 1 {
      assert Stars(1) == Stars(0) + [Star] == [Star];
      StarRowStep(row, next, pieces, text);
    } else {
      StarRunStep(row, next, pieces, k - 1, text);
      var shorter := pieces + Stars(k - 2);
      assert pieces + Stars(k - 1) == shorter + [Star];
      assert pieces + Stars(k) == shorter + [Star] + [Star];
      StarsCollapse(next, shorter, text);
    }
  }

  datatype Status = Matched(answer: bool) | MalformedPattern | AllocationFailed

  /** One turn of the matching loop: the next row, and the pieces it covers. */
  method NextRow(pattern: seq<byte>, cursor: nat, text: seq<byte>, previous: array<bool>, current: array<bool>,
                 ghost pieces: seq<Piece>)
    returns (ok: bool, after: nat, ghost covered: seq<Piece>)
    requires cursor < |pattern| && previous != current && previous.Length == current.Length == |text| + 1
    requires IsRow(previous[..], pieces, text)
    modifies current
    ensures !ok ==> Parse(pattern[cursor..]).None?
    ensures ok ==> cursor < after <= |pattern| && IsRow(current[..], covered, text)
    ensures ok ==> ExtendPieces(pieces, Parse(pattern[cursor..])) == ExtendPieces(covered, Parse(pattern[after..]))
  {
    ok, after, covered := true, cursor, pieces;
    ghost var here, row := pattern[cursor..], previous[..];
    if pattern[cursor] == STAR {
      ghost var k;
      after, k := SkipStars(pattern, cursor, pieces);
      StarRow(previous, current);
      StarRunStep(row, current[..], pieces, k, text);
      covered := pieces + Stars(k);
      return;
    }
    PieceStep(pieces, here);
    if pattern[cursor] == QUESTION {
      after := cursor + 1;
      AnyRow(previous, current, text);
    } else if pattern[cursor] == OPEN {
      SuffixOfSuffix(pattern, cursor, 1);
      ok, after := ClassRow(previous, current, text, pattern, cursor);
    } else {
      var literal := Plain(pattern[cursor]);
      if pattern[cursor] == ESCAPE {
        if cursor + 1 == |pattern| {
          return false, after, covered;
        }
        literal, after := Escaped(pattern[cursor + 1]), cursor + 1;
      }
      after := after + 1;
      LiteralRow(previous, current, text, literal);
    }
    if ok {
      ghost var piece := ReadPiece(here).value;
      assert ReadPiece(here).rest == pattern[after..];
      ByteRowStep(row, current[..], pieces, piece, text);
      covered := pieces + [piece];
    }
  }

  lemma FirstRow(row: seq<bool>, text: seq<byte>)
    requires |row| == |text| + 1 && row[0] && forall j :: 0 < j < |row| ==> !row[j]
    ensures IsRow(row, [], text)
  {
  }

  /** `ascii_glob_match`: a malformed pattern is never matched, a valid one is decided exactly. */
  method Match(pattern: seq<byte>, text: seq<byte>, memory: bool) returns (status: Status)
    ensures status == MalformedPattern <==> Parse(pattern).None?
    ensures Parse(pattern).Some? ==> (status == AllocationFailed <==> !memory || 2 * (|text| + 1) > SIZE_MAX)
    ensures status.Matched? ==> status.answer == Matches(Parse(pattern).value, text)
    ensures status == MalformedPattern <==> !exists pieces {:trigger Spells(pieces, pattern)} :: Spells(pieces, pattern)
    ensures status.Matched? ==>
      forall pieces {:trigger Spells(pieces, pattern)} :: Spells(pieces, pattern) ==>
        (status.answer <==> Denotes(pieces, text))
  {
    PatternsDenote(pattern, text);
    var ok := Validate(pattern);
    if !ok {
      return MalformedPattern;
    }
    if |text| + 1 > SIZE_MAX / 2 || !memory {
      return AllocationFailed;
    }
    var previous := new bool[|text| + 1](_ => false);
    var current := new bool[|text| + 1](_ => false);
    previous[0] := true;
    FirstRow(previous[..], text);
    var cursor: nat := 0;
    ghost var pieces: seq<Piece> := [];
    PiecesDone([], Parse(pattern));
    while cursor < |pattern|
      invariant cursor <= |pattern| && previous != current && previous.Length == current.Length == |text| + 1
      invariant fresh(previous) && fresh(current)
      invariant IsRow(previous[..], pieces, text)
      invariant Parse(pattern) == ExtendPieces(pieces, Parse(pattern[cursor..]))
    {
      ok, cursor, pieces := NextRow(pattern, cursor, text, previous, current, pieces);
      assert ok;
      previous, current := current, previous;
    }
    PiecesDone(pieces, None);
    assert text[..|text|] == text;
    status := Matched(previous[..][|text|]);
  }
}
