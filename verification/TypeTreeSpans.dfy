/** The one accessor that shows how an array is stored (`typetree_get_byte_span` of src/io/typetree.c), when
    it nevertheless agrees, and paths into a value. */
module TypeTreeSpans {
  import opened Bytes
  import opened TypeTreeValues
  import opened TypeTreeSchema
  import opened TypeTreeParser
  import opened TypeTreeForms
  import opened ValueDigest

  // ----- Byte spans -----

  /** `typetree_get_byte_span`: the bytes of a packed array, and nothing for any other. */
  function GetByteSpan(v: Value): Option<seq<byte>> {
    match GetArray(v)
    case Some(PackedVal(bytes, _)) => Some(bytes)
    case _ => None
  }

  predicate FindsPacked(v: Value) {
    GetArray(v).Some? && GetArray(v).value.PackedVal?
  }

  /** An expanded and a packed array that are equal as values and of which only one has a byte span. */
  lemma SpansShowTheStorage(name: seq<byte>, typeName: seq<byte>)
    ensures var v, w := Value(name, typeName, ArrayVal([])), Value(name, typeName, PackedVal([], false));
            SameValue(v, w) && GetByteSpan(v) == None && GetByteSpan(w) == Some([])
  {
  }

  /** For values equal up to representation the spans agree exactly when no array is found or both arrays
      found are stored alike. */
  lemma SpansAgreeExactly(v: Value, w: Value)
    requires SameValue(v, w)
    ensures GetByteSpan(v) == GetByteSpan(w) <==> GetArray(v).None? || (FindsPacked(v) <==> FindsPacked(w))
  {
    FindsTheSameArray(v, w);
  }

  // ----- Copied and borrowed arrays -----

  /** A value without the note of who owns its packed bytes. */
  function ForgetOwner(v: Value): (r: Value)
    ensures r.name == v.name && r.typeName == v.typeName
    decreases v, 1
  {
    Value(v.name, v.typeName, ForgetData(v.data))
  }

  function ForgetData(d: Data): (r: Data)
    ensures IsArray(r) == IsArray(d) && r.StructVal? == d.StructVal? && r.PackedVal? == d.PackedVal?
    decreases d, 0
  {
    match d
    case PackedVal(bytes, _) => PackedVal(bytes, false)
    case ArrayVal(elements) => ArrayVal(ForgetAll(elements))
    case StructVal(members) => StructVal(ForgetAll(members))
    case _ => d
  }

  function ForgetAll(vs: seq<Value>): (r: seq<Value>)
    ensures |r| == |vs|
    decreases vs, 0
  {
    if vs == [] then [] else [ForgetOwner(vs[0])] + ForgetAll(vs[1..])
  }

  lemma ForgetFirst(v: Value, vs: seq<Value>)
    ensures ForgetAll([v] + vs) == [ForgetOwner(v)] + ForgetAll(vs)
  {
    assert ([v] + vs)[1..] == vs;
  }

  function ForgetOutcome(r: Outcome): Outcome {
    match r
    case Success(value, index, position) => Success(ForgetOwner(value), index, position)
    case Failure(_) => r
  }

  function ForgetList(r: ListOutcome): ListOutcome {
    match r
    case Listed(values, index, position) => Listed(ForgetAll(values), index, position)
    case ListFailure(_) => r
  }

  lemma ForgetMembers(name: seq<byte>, typeName: seq<byte>, vs: seq<Value>, ws: seq<Value>)
    requires ForgetAll(vs) == ForgetAll(ws)
    ensures ForgetOwner(Value(name, typeName, StructVal(vs))) == ForgetOwner(Value(name, typeName, StructVal(ws)))
    ensures ForgetOwner(Value(name, typeName, ArrayVal(vs))) == ForgetOwner(Value(name, typeName, ArrayVal(ws)))
  {
    assert ForgetData(StructVal(vs)) == ForgetData(StructVal(ws))
      && ForgetData(ArrayVal(vs)) == ForgetData(ArrayVal(ws));
  }

  lemma ForgetPacked(name: seq<byte>, typeName: seq<byte>, bytes: seq<byte>, owned: bool)
    ensures ForgetOwner(Value(name, typeName, PackedVal(bytes, owned))) ==
      Value(name, typeName, PackedVal(bytes, false))
  {
    assert ForgetData(PackedVal(bytes, owned)) == PackedVal(bytes, false);
  }

  /** Copying and borrowing give the same outcome but for the owner of the packed bytes. */
  lemma {:induction false} CopiedIsBorrowed(nodes: seq<Node>, index: nat, wire: Wire, position: nat, suppress: bool,
                                            early: bool)
    requires index < |nodes|
    ensures ForgetOutcome(ParseValue(nodes, index, wire, position, PackedCopy, suppress, early))
         == ForgetOutcome(ParseValue(nodes, index, wire, position, Borrowed, suppress, early))
    decreases |nodes| - index, 2, 0
  {
    if HasChildren(nodes, index) && nodes[index].typeName != Ascii("string") {
      if IsArrayMarker(nodes[index + 1]) {
        CopiedArrayIsBorrowed(nodes, index, wire, position, suppress, early);
      } else {
        CopiedMembersAreBorrowed(nodes, nodes[index].level, index + 1, wire, position, early);
        var r := ParseMembers(nodes, nodes[index].level, index + 1, wire, position, PackedCopy, early);
        var s := ParseMembers(nodes, nodes[index].level, index + 1, wire, position, Borrowed, early);
        if r.Listed? {
          ForgetMembers(nodes[index].name, nodes[index].typeName, r.values, s.values);
        }
      }
    }
  }

  lemma ForgetTail(v: Value, w: Value, index: nat, position: nat, wire: Wire, align: bool)
    requires ForgetOwner(v) == ForgetOwner(w)
    ensures ForgetOutcome(AlignTail(v, index, position, wire, align)) ==
      ForgetOutcome(AlignTail(w, index, position, wire, align))
  {
  }

  lemma CopiedBytesAreBorrowed(nodes: seq<Node>, index: nat, wire: Wire, position: nat, suppress: bool, early: bool)
    requires index + 3 < |nodes| && PacksBytes(nodes, index + 3, PackedCopy)
    ensures ForgetOutcome(ParseArray(nodes, index, wire, position, PackedCopy, suppress, early))
         == ForgetOutcome(ParseArray(nodes, index, wire, position, Borrowed, suppress, early))
  {
    if position + 4 <= |wire.data| && position + 4 + WordAt(wire, position, 4) <= |wire.data| {
      var node, size := nodes[index], WordAt(wire, position, 4);
      var bytes := wire.data[position + 4..position + 4 + size];
      ForgetPacked(node.name, node.typeName, bytes, size > 0);
      ForgetPacked(node.name, node.typeName, bytes, false);
      ForgetTail(Value(node.name, node.typeName, PackedVal(bytes, size > 0)),
                 Value(node.name, node.typeName, PackedVal(bytes, false)),
                 SubtreeEnd(nodes, index), position + 4 + size, wire, ArrayAligns(nodes, index, suppress));
    }
  }

  lemma {:induction false} CopiedArrayIsBorrowed(nodes: seq<Node>, index: nat, wire: Wire, position: nat,
                                                 suppress: bool, early: bool)
    requires index < |nodes|
    ensures ForgetOutcome(ParseArray(nodes, index, wire, position, PackedCopy, suppress, early))
         == ForgetOutcome(ParseArray(nodes, index, wire, position, Borrowed, suppress, early))
    decreases |nodes| - index, 1, 0
  {
    if index + 3 < |nodes| && position + 4 <= |wire.data| {
      if PacksBytes(nodes, index + 3, PackedCopy) {
        CopiedBytesAreBorrowed(nodes, index, wire, position, suppress, early);
      } else {
        CopiedListIsBorrowed(nodes, index, wire, position, suppress, early);
      }
    }
  }

  lemma {:induction false} CopiedListIsBorrowed(nodes: seq<Node>, index: nat, wire: Wire, position: nat, suppress: bool,
                                                early: bool)
    requires index + 3 < |nodes| && position + 4 <= |wire.data| && !PacksBytes(nodes, index + 3, PackedCopy)
    ensures ForgetOutcome(ParseArray(nodes, index, wire, position, PackedCopy, suppress, early))
         == ForgetOutcome(ParseArray(nodes, index, wire, position, Borrowed, suppress, early))
    decreases |nodes| - index, 0, 0
  {
    var size := WordAt(wire, position, 4);
    CopiedElementsAreBorrowed(nodes, index + 3, size, wire, position + 4, early);
    var r := ParseElements(nodes, index + 3, size, wire, position + 4, PackedCopy, early);
    var s := ParseElements(nodes, index + 3, size, wire, position + 4, Borrowed, early);
    if r.Listed? {
      var node := nodes[index];
      ForgetMembers(node.name, node.typeName, r.values, s.values);
      ForgetTail(Value(node.name, node.typeName, ArrayVal(r.values)),
                 Value(node.name, node.typeName, ArrayVal(s.values)),
                 SubtreeEnd(nodes, index), r.position, wire, ArrayAligns(nodes, index, suppress));
    }
  }

  lemma {:induction false} CopiedElementsAreBorrowed(nodes: seq<Node>, data: nat, count: nat, wire: Wire, position: nat,
                                                     early: bool)
    requires data < |nodes|
    ensures ForgetList(ParseElements(nodes, data, count, wire, position, PackedCopy, early))
         == ForgetList(ParseElements(nodes, data, count, wire, position, Borrowed, early))
    decreases |nodes| - data, 3, count
  {
    if count > 0 {
      CopiedIsBorrowed(nodes, data, wire, position, true, early);
      var r := ParseValue(nodes, data, wire, position, PackedCopy, true, early);
      var s := ParseValue(nodes, data, wire, position, Borrowed, true, early);
      if r.Success? {
        CopiedElementsAreBorrowed(nodes, data, count - 1, wire, r.position, early);
        ForgetBoth(r.value, ParseElements(nodes, data, count - 1, wire, r.position, PackedCopy, early),
                   s.value, ParseElements(nodes, data, count - 1, wire, r.position, Borrowed, early));
      }
    }
  }

  lemma {:induction false} CopiedMembersAreBorrowed(nodes: seq<Node>, level: nat, index: nat, wire: Wire, position: nat,
                                                    early: bool)
    requires index <= |nodes|
    ensures ForgetList(ParseMembers(nodes, level, index, wire, position, PackedCopy, early))
         == ForgetList(ParseMembers(nodes, level, index, wire, position, Borrowed, early))
    decreases |nodes| - index, 3, 0
  {
    if index < |nodes| && nodes[index].level > level {
      if nodes[index].level != level + 1 {
        CopiedMembersAreBorrowed(nodes, level, index + 1, wire, position, early);
      } else {
        CopiedIsBorrowed(nodes, index, wire, position, false, early);
        var r := ParseValue(nodes, index, wire, position, PackedCopy, false, early);
        var s := ParseValue(nodes, index, wire, position, Borrowed, false, early);
        if r.Success? {
          CopiedMembersAreBorrowed(nodes, level, r.index, wire, r.position, early);
          ForgetBoth(r.value, ParseMembers(nodes, level, r.index, wire, r.position, PackedCopy, early),
                     s.value, ParseMembers(nodes, level, r.index, wire, r.position, Borrowed, early));
        }
      }
    }
  }

  lemma ForgetBoth(v: Value, r: ListOutcome, w: Value, s: ListOutcome)
    requires ForgetOwner(v) == ForgetOwner(w) && ForgetList(r) == ForgetList(s)
    ensures r.Listed? ==> s.Listed? && ForgetAll([v] + r.values) == ForgetAll([w] + s.values)
  {
    if r.Listed? {
      ForgetFirst(v, r.values);
      ForgetFirst(w, s.values);
    }
  }

  function ForgetFound(r: Option<Value>): Option<Value> {
    match r case None => None case Some(v) => Some(ForgetOwner(v))
  }

  lemma {:induction false} ForgettingKeepsChildren(members: seq<Value>, name: seq<byte>)
    ensures FindChild(ForgetAll(members), name) == ForgetFound(FindChild(members, name))
  {
    if members != [] {
      ForgettingKeepsChildren(members[1..], name);
      assert ForgetAll(members)[1..] == ForgetAll(members[1..]);
    }
  }

  function ForgetArray(r: Option<Data>): Option<Data> {
    match r case None => None case Some(d) => Some(ForgetData(d))
  }

  lemma ForgottenParts(v: Value)
    ensures ForgetOwner(v).data == ForgetData(v.data)
    ensures v.data.StructVal? ==> ForgetOwner(v).data == StructVal(ForgetAll(v.data.members))
  {
  }

  lemma {:induction false} ForgettingKeepsArrays(v: Value)
    ensures GetArray(ForgetOwner(v)) == ForgetArray(GetArray(v))
    decreases v
  {
    ForgottenParts(v);
    if v.data.StructVal? {
      var members := v.data.members;
      ForgettingKeepsChildren(members, Ascii("Array"));
      ForgettingKeepsChildren(members, Ascii("data"));
      var marker, child := FindChild(members, Ascii("Array")), FindChild(members, Ascii("data"));
      if marker.Some? {
        ForgottenParts(marker.value);
      }
      if child.Some? {
        ForgettingKeepsArrays(child.value);
      }
    }
  }

  lemma ForgettingKeepsSpans(v: Value)
    ensures GetByteSpan(ForgetOwner(v)) == GetByteSpan(v)
  {
    ForgettingKeepsArrays(v);
  }

  /** Whatever was parsed with copied arrays has the same byte spans as with borrowed ones. */
  lemma CopiedAndBorrowedSpansAgree(nodes: seq<Node>, index: nat, wire: Wire, position: nat, suppress: bool,
                                    early: bool)
    requires index < |nodes|
    ensures var r := ParseValue(nodes, index, wire, position, PackedCopy, suppress, early);
            var s := ParseValue(nodes, index, wire, position, Borrowed, suppress, early);
            r.Success? == s.Success? && (r.Success? ==> GetByteSpan(r.value) == GetByteSpan(s.value))
  {
    CopiedIsBorrowed(nodes, index, wire, position, suppress, early);
    var r := ParseValue(nodes, index, wire, position, PackedCopy, suppress, early);
    var s := ParseValue(nodes, index, wire, position, Borrowed, suppress, early);
    if r.Success? {
      ForgettingKeepsSpans(r.value);
      ForgettingKeepsSpans(s.value);
    }
  }

  // ----- Paths -----

  const SLASH: byte := 47
  const DOT: byte := 46

  predicate IsSeparator(b: byte) {
    b == SLASH || b == DOT
  }

  function SkipSeparators(path: seq<byte>): (r: seq<byte>)
    ensures |r| <= |path| && (r != [] ==> !IsSeparator(r[0]))
  {
    if path != [] && IsSeparator(path[0]) then SkipSeparators(path[1..]) else path
  }

  function NameLength(path: seq<byte>): (n: nat)
    ensures n <= |path| && (path != [] && !IsSeparator(path[0]) ==> n > 0)
  {
    if path == [] || IsSeparator(path[0]) then 0 else 1 + NameLength(path[1..])
  }

  /** `typetree_find_path`: names separated by slashes or dots, each found among the members of the last. */
  function FindPath(v: Value, path: seq<byte>): Option<Value>
    decreases |path|
  {
    var rest := SkipSeparators(path);
    if rest == [] then Some(v)
    else if !v.data.StructVal? then None
    else
      var n := NameLength(rest);
      match FindChild(v.data.members, rest[..n])
      case None => None
      case Some(child) => FindPath(child, rest[n..])
  }

  /** A path leads to the same place in every representation. */
  lemma {:induction false} FindsTheSamePath(v: Value, w: Value, path: seq<byte>)
    requires SameValue(v, w)
    ensures SameOption(FindPath(v, path), FindPath(w, path))
    decreases |path|
  {
    var rest := SkipSeparators(path);
    SameDataSameShape(v.data, w.data);
    if rest != [] && v.data.StructVal? {
      var n := NameLength(rest);
      FindsTheSameChild(v.data.members, w.data.members, rest[..n]);
      var a, b := FindChild(v.data.members, rest[..n]), FindChild(w.data.members, rest[..n]);
      if a.Some? {
        FindsTheSamePath(a.value, b.value, rest[n..]);
      }
    }
  }
}
