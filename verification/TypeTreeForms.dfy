/** The early count check and the three array representations do not change what a parse means
    (src/io/typetree.c), and the scalar, element and copying accessors read the same from each. */
module TypeTreeForms {
  import opened Bytes
  import opened TypeTreeValues
  import opened TypeTreeSchema
  import opened TypeTreeParser
  import opened ValueDigest

  // ----- The early count check -----

  predicate SameVerdict(a: Outcome, b: Outcome) {
    a.Success? == b.Success? && (a.Success? ==> a == b)
  }

  predicate SameListVerdict(a: ListOutcome, b: ListOutcome) {
    a.Listed? == b.Listed? && (a.Listed? ==> a == b)
  }

  /** Refusing a count larger than the remaining bytes rejects only streams that could not have
      been parsed anyway. */
  lemma {:induction false} EarlyCheckIsSound(nodes: seq<Node>, index: nat, wire: Wire, position: nat, mode: Mode,
                                             suppress: bool)
    requires ValidSchema(nodes) && index < |nodes| && position <= |wire.data|
    ensures SameVerdict(ParseValue(nodes, index, wire, position, mode, suppress, true),
                        ParseValue(nodes, index, wire, position, mode, suppress, false))
    decreases |nodes| - index, 2, 0
  {
    if HasChildren(nodes, index) && nodes[index].typeName != Ascii("string") {
      if IsArrayMarker(nodes[index + 1]) {
        EarlyArrayIsSound(nodes, index, wire, position, mode, suppress);
      } else {
        EarlyMembersAreSound(nodes, nodes[index].level, index + 1, wire, position, mode);
      }
    }
  }

  lemma {:induction false} EarlyArrayIsSound(nodes: seq<Node>, index: nat, wire: Wire, position: nat, mode: Mode,
                                             suppress: bool)
    requires ValidSchema(nodes) && index < |nodes| && position <= |wire.data|
    ensures SameVerdict(ParseArray(nodes, index, wire, position, mode, suppress, true),
                        ParseArray(nodes, index, wire, position, mode, suppress, false))
    decreases |nodes| - index, 1, 0
  {
    if index + 3 < |nodes| && position + 4 <= |wire.data| {
      var size := WordAt(wire, position, 4);
      ElementsAreTotal(nodes, index + 3, size, wire, position + 4, mode, false);
      EarlyElementsAreSound(nodes, index + 3, size, wire, position + 4, mode);
    }
  }

  lemma {:induction false} EarlyElementsAreSound(nodes: seq<Node>, data: nat, count: nat, wire: Wire, position: nat,
                                                 mode: Mode)
    requires ValidSchema(nodes) && data < |nodes| && position <= |wire.data|
    ensures SameListVerdict(ParseElements(nodes, data, count, wire, position, mode, true),
                            ParseElements(nodes, data, count, wire, position, mode, false))
    decreases |nodes| - data, 3, count
  {
    if count > 0 {
      EarlyCheckIsSound(nodes, data, wire, position, mode, true);
      ParserIsTotal(nodes, data, wire, position, mode, true, true);
      var r := ParseValue(nodes, data, wire, position, mode, true, true);
      if r.Success? {
        EarlyElementsAreSound(nodes, data, count - 1, wire, r.position, mode);
      }
    }
  }

  lemma {:induction false} EarlyMembersAreSound(nodes: seq<Node>, level: nat, index: nat, wire: Wire, position: nat,
                                                mode: Mode)
    requires ValidSchema(nodes) && index <= |nodes| && position <= |wire.data|
    ensures SameListVerdict(ParseMembers(nodes, level, index, wire, position, mode, true),
                            ParseMembers(nodes, level, index, wire, position, mode, false))
    decreases |nodes| - index, 3, 0
  {
    if index < |nodes| && nodes[index].level > level {
      if nodes[index].level != level + 1 {
        EarlyMembersAreSound(nodes, level, index + 1, wire, position, mode);
      } else {
        EarlyCheckIsSound(nodes, index, wire, position, mode, false);
        ParserIsTotal(nodes, index, wire, position, mode, false, true);
        var r := ParseValue(nodes, index, wire, position, mode, false, true);
        if r.Success? {
          EarlyMembersAreSound(nodes, level, r.index, wire, r.position, mode);
        }
      }
    }
  }

  // ----- The three representations -----

  /** Equal up to representation: same verdict, same node index and stream position, same value. */
  predicate Alike(a: Outcome, b: Outcome) {
    a.Success? == b.Success?
      && (a.Success? ==> a.index == b.index && a.position == b.position && SameValue(a.value, b.value))
  }

  predicate ListAlike(a: ListOutcome, b: ListOutcome) {
    a.Listed? == b.Listed?
      && (a.Listed? ==> a.index == b.index && a.position == b.position && SameAll(a.values, b.values))
  }

  lemma {:induction false} SameValueIsReflexive(v: Value)
    ensures SameValue(v, v)
    decreases v, 1
  {
    match v.data
    case ArrayVal(elements) => SameAllIsReflexive(elements);
    case StructVal(members) => SameAllIsReflexive(members);
    case _ =>
  }

  lemma {:induction false} SameAllIsReflexive(vs: seq<Value>)
    ensures SameAll(vs, vs)
    decreases vs, 0
  {
    if vs != [] {
      SameValueIsReflexive(vs[0]);
      SameAllIsReflexive(vs[1..]);
    }
  }

  lemma {:induction false} SameAllAt(xs: seq<Value>, ys: seq<Value>, i: nat)
    requires SameAll(xs, ys) && i < |xs|
    ensures SameValue(xs[i], ys[i])
  {
    if i > 0 {
      SameAllAt(xs[1..], ys[1..], i - 1);
    }
  }

  lemma {:induction false} SameAllIsSymmetricOnBytes(xs: seq<Value>, ys: seq<Value>)
    requires SameAll(xs, ys)
    ensures IsExpandedBytes(xs) == IsExpandedBytes(ys)
    ensures IsExpandedBytes(xs) ==> ElementBytes(xs) == ElementBytes(ys)
  {
    forall i | 0 <= i < |xs|
      ensures IsByteElement(xs[i]) == IsByteElement(ys[i]) && ElementByte(xs[i]) == ElementByte(ys[i]) {
      SameAllAt(xs, ys, i);
    }
    if IsExpandedBytes(xs) {
      assert forall v :: v in ys ==> IsByteElement(v);
    } else {
      var i :| 0 <= i < |xs| && !IsByteElement(xs[i]);
      assert ys[i] in ys && !IsByteElement(ys[i]);
    }
  }

  /** Lists of the same values are the same data, whichever view SameData takes. */
  lemma SameListsSameData(xs: seq<Value>, ys: seq<Value>)
    requires SameAll(xs, ys)
    ensures SameData(ArrayVal(xs), ArrayVal(ys)) && SameData(StructVal(xs), StructVal(ys))
  {
    SameAllIsSymmetricOnBytes(xs, ys);
  }

  lemma TailsAlike(v: Value, w: Value, index: nat, position: nat, wire: Wire, align: bool)
    requires v.name == w.name && v.typeName == w.typeName && SameData(v.data, w.data)
    ensures Alike(AlignTail(v, index, position, wire, align), AlignTail(w, index, position, wire, align))
  {
  }

  lemma UInt8IsUnsigned()
    ensures IsUnsignedInteger(Ascii("UInt8")) && !IsSignedInteger(Ascii("UInt8"))
    ensures CText(Ascii("UInt8")) == Ascii("UInt8")
  {
    var t := Ascii("UInt8");
    assert t[0] == 85;
    assert Ascii("SInt8")[0] == 83 && Ascii("short")[0] == 115;
    StrLenIsFirstZero(t, 5);
  }

  lemma ByteLeaf(nodes: seq<Node>, data: nat, wire: Wire, position: nat, early: bool)
    requires data < |nodes| && PacksBytes(nodes, data, PackedCopy) && position <= |wire.data|
    ensures var r := ParseValue(nodes, data, wire, position, Expanded, true, early);
            if position < |wire.data|
            then r.Success? && r.position == position + 1 && IsByteElement(r.value)
              && ElementByte(r.value) == wire.data[position]
            else r.Failure?
  {
    UInt8IsUnsigned();
    if position < |wire.data| {
      assert wire.data[position..position + 1][0] == wire.data[position];
    }
  }

  lemma ConsBytes(v: Value, vs: seq<Value>, wire: Wire, position: nat, count: nat)
    requires count > 0 && position + count <= |wire.data|
    requires IsByteElement(v) && ElementByte(v) == wire.data[position]
    requires IsExpandedBytes(vs) && ElementBytes(vs) == wire.data[position + 1..position + count]
    ensures IsExpandedBytes([v] + vs) && ElementBytes([v] + vs) == wire.data[position..position + count]
  {
    assert ElementBytes([v] + vs) == [ElementByte(v)] + ElementBytes(vs);
  }

  /** Elements of a childless UInt8 node are exactly the wire bytes. */
  lemma {:induction false} ByteElements(nodes: seq<Node>, data: nat, count: nat, wire: Wire, position: nat, early: bool)
    requires data < |nodes| && PacksBytes(nodes, data, PackedCopy) && position <= |wire.data|
    ensures var r := ParseElements(nodes, data, count, wire, position, Expanded, early);
            if position + count <= |wire.data|
            then r.Listed? && r.position == position + count && IsExpandedBytes(r.values)
                 && ElementBytes(r.values) == wire.data[position..position + count]
            else r.ListFailure?
    decreases count
  {
    if count > 0 {
      ByteLeaf(nodes, data, wire, position, early);
      if position < |wire.data| {
        var v := ParseValue(nodes, data, wire, position, Expanded, true, early).value;
        ByteElements(nodes, data, count - 1, wire, position + 1, early);
        var r := ParseElements(nodes, data, count - 1, wire, position + 1, Expanded, early);
        if r.Listed? {
          ConsBytes(v, r.values, wire, position, count);
        }
      }
    }
  }

  /** Any two representations succeed on the same inputs, stop at the same node and stream position,
      and yield the same value. */
  lemma {:induction false} RepresentationsAgree(nodes: seq<Node>, index: nat, wire: Wire, position: nat, a: Mode,
                                                b: Mode, suppress: bool)
    requires ValidSchema(nodes) && index < |nodes| && position <= |wire.data|
    ensures Alike(ParseValue(nodes, index, wire, position, a, suppress, true),
                  ParseValue(nodes, index, wire, position, b, suppress, true))
    decreases |nodes| - index, 2, 0
  {
    if !HasChildren(nodes, index) || nodes[index].typeName == Ascii("string") {
      var r := ParseValue(nodes, index, wire, position, a, suppress, true);
      assert r == ParseValue(nodes, index, wire, position, b, suppress, true);
      if r.Success? {
        SameValueIsReflexive(r.value);
      }
    } else if IsArrayMarker(nodes[index + 1]) {
      if index + 3 < |nodes| && PacksBytes(nodes, index + 3, PackedCopy) {
        ByteArraysAgree(nodes, index, wire, position, a, b, suppress);
      } else {
        OtherArraysAgree(nodes, index, wire, position, a, b, suppress);
      }
    } else {
      StructsAgree(nodes, index, wire, position, a, b, suppress);
    }
  }

  lemma {:induction false} StructsAgree(nodes: seq<Node>, index: nat, wire: Wire, position: nat, a: Mode, b: Mode,
                                        suppress: bool)
    requires ValidSchema(nodes) && index < |nodes| && position <= |wire.data|
    ensures Alike(ParseStruct(nodes, index, wire, position, a, suppress, true),
                  ParseStruct(nodes, index, wire, position, b, suppress, true))
    decreases |nodes| - index, 1, 0
  {
    var node, align := nodes[index], !suppress && WantsAlignment(nodes[index].metaFlags);
    MembersAgree(nodes, node.level, index + 1, wire, position, a, b);
    var r := ParseMembers(nodes, node.level, index + 1, wire, position, a, true);
    var s := ParseMembers(nodes, node.level, index + 1, wire, position, b, true);
    if r.Listed? {
      SameListsSameData(r.values, s.values);
      TailsAlike(Value(node.name, node.typeName, StructVal(r.values)),
                 Value(node.name, node.typeName, StructVal(s.values)), r.index, r.position, wire, align);
    }
  }

  /** What every representation of a byte array is: its name and type, and a view of the wire bytes. */
  predicate ReadsByteArray(node: Node, wire: Wire, position: nat, r: Outcome)
    requires position + 4 <= |wire.data|
  {
    var size := WordAt(wire, position, 4);
    && position + 4 + size <= |wire.data| && r.Success?
    && r.value.name == node.name && r.value.typeName == node.typeName
    && ByteView(r.value.data) == Some(wire.data[position + 4..position + 4 + size])
  }

  /** A byte array parses exactly when its count is admissible and its bytes and padding are there. */
  predicate ParsesByteArray(nodes: seq<Node>, index: nat, wire: Wire, position: nat, suppress: bool, r: Outcome)
    requires index + 3 < |nodes| && position + 4 <= |wire.data|
  {
    var size := WordAt(wire, position, 4);
    var end := position + 4 + size;
    var aligned := if ArrayAligns(nodes, index, suppress) then Aligned(end) else end;
    && (r.Success? <==> nodes[index + 2].level > nodes[index].level && nodes[index + 3].level > nodes[index].level
                        && size <= INT_MAX && end <= |wire.data| && aligned <= |wire.data|)
    && (r.Success? ==> r.index == SubtreeEnd(nodes, index) && r.position == aligned
                       && ReadsByteArray(nodes[index], wire, position, r))
  }

  lemma PackedByteArray(nodes: seq<Node>, index: nat, wire: Wire, position: nat, mode: Mode, suppress: bool)
    requires index + 3 < |nodes| && PacksBytes(nodes, index + 3, mode) && position + 4 <= |wire.data|
    ensures ParsesByteArray(nodes, index, wire, position, suppress,
                            ParseArray(nodes, index, wire, position, mode, suppress, true))
  {
  }

  lemma ExpandedByteArray(nodes: seq<Node>, index: nat, wire: Wire, position: nat, suppress: bool)
    requires index + 3 < |nodes| && PacksBytes(nodes, index + 3, PackedCopy) && position + 4 <= |wire.data|
    ensures ParsesByteArray(nodes, index, wire, position, suppress,
                            ParseArray(nodes, index, wire, position, Expanded, suppress, true))
  {
    var size := WordAt(wire, position, 4);
    ByteElements(nodes, index + 3, size, wire, position + 4, true);
    if position + 4 + size <= |wire.data| {
      var node, elements :=
        nodes[index], ParseElements(nodes, index + 3, size, wire, position + 4, Expanded, true).values;
      assert ByteView(ArrayVal(elements)) == Some(wire.data[position + 4..position + 4 + size]);
    }
  }

  lemma ByteArrayInEveryMode(nodes: seq<Node>, index: nat, wire: Wire, position: nat, mode: Mode, suppress: bool)
    requires index + 3 < |nodes| && PacksBytes(nodes, index + 3, PackedCopy) && position + 4 <= |wire.data|
    ensures ParsesByteArray(nodes, index, wire, position, suppress,
                            ParseArray(nodes, index, wire, position, mode, suppress, true))
  {
    match mode
    case Expanded => ExpandedByteArray(nodes, index, wire, position, suppress);
    case PackedCopy => PackedByteArray(nodes, index, wire, position, PackedCopy, suppress);
    case Borrowed => PackedByteArray(nodes, index, wire, position, Borrowed, suppress);
  }

  lemma ByteArraysAgree(nodes: seq<Node>, index: nat, wire: Wire, position: nat, a: Mode, b: Mode, suppress: bool)
    requires index + 3 < |nodes| && PacksBytes(nodes, index + 3, PackedCopy)
    ensures Alike(ParseArray(nodes, index, wire, position, a, suppress, true),
                  ParseArray(nodes, index, wire, position, b, suppress, true))
  {
    if position + 4 <= |wire.data| {
      ByteArrayInEveryMode(nodes, index, wire, position, a, suppress);
      ByteArrayInEveryMode(nodes, index, wire, position, b, suppress);
    }
  }

  lemma {:induction false} OtherArraysAgree(nodes: seq<Node>, index: nat, wire: Wire, position: nat, a: Mode, b: Mode,
                                            suppress: bool)
    requires ValidSchema(nodes) && index < |nodes| && position <= |wire.data|
    requires index + 3 < |nodes| ==> !PacksBytes(nodes, index + 3, PackedCopy)
    ensures Alike(ParseArray(nodes, index, wire, position, a, suppress, true),
                  ParseArray(nodes, index, wire, position, b, suppress, true))
    decreases |nodes| - index, 1, 0
  {
    var data := index + 3;
    if data < |nodes| && position + 4 <= |wire.data| {
      var size := WordAt(wire, position, 4);
      ElementsAgree(nodes, data, size, wire, position + 4, a, b);
      var r := ParseElements(nodes, data, size, wire, position + 4, a, true);
      var s := ParseElements(nodes, data, size, wire, position + 4, b, true);
      if r.Listed? {
        var node, align := nodes[index], ArrayAligns(nodes, index, suppress);
        SameListsSameData(r.values, s.values);
        TailsAlike(Value(node.name, node.typeName, ArrayVal(r.values)),
                   Value(node.name, node.typeName, ArrayVal(s.values)),
                   SubtreeEnd(nodes, index), r.position, wire, align);
      }
    }
  }

  lemma {:induction false} ElementsAgree(nodes: seq<Node>, data: nat, count: nat, wire: Wire, position: nat, a: Mode,
                                         b: Mode)
    requires ValidSchema(nodes) && data < |nodes| && position <= |wire.data|
    ensures ListAlike(ParseElements(nodes, data, count, wire, position, a, true),
                      ParseElements(nodes, data, count, wire, position, b, true))
    decreases |nodes| - data, 3, count
  {
    if count > 0 {
      RepresentationsAgree(nodes, data, wire, position, a, b, true);
      ParserIsTotal(nodes, data, wire, position, a, true, true);
      var r := ParseValue(nodes, data, wire, position, a, true, true);
      if r.Success? {
        ElementsAgree(nodes, data, count - 1, wire, r.position, a, b);
      }
    }
  }

  lemma {:induction false} MembersAgree(nodes: seq<Node>, level: nat, index: nat, wire: Wire, position: nat, a: Mode,
                                        b: Mode)
    requires ValidSchema(nodes) && index <= |nodes| && position <= |wire.data|
    ensures ListAlike(ParseMembers(nodes, level, index, wire, position, a, true),
                      ParseMembers(nodes, level, index, wire, position, b, true))
    decreases |nodes| - index, 3, 0
  {
    if index < |nodes| && nodes[index].level > level {
      if nodes[index].level != level + 1 {
        MembersAgree(nodes, level, index + 1, wire, position, a, b);
      } else {
        RepresentationsAgree(nodes, index, wire, position, a, b, false);
        ParserIsTotal(nodes, index, wire, position, a, false, true);
        var r := ParseValue(nodes, index, wire, position, a, false, true);
        if r.Success? {
          MembersAgree(nodes, level, r.index, wire, r.position, a, b);
        }
      }
    }
  }

  /** Parsing the same stream in two representations feeds the value digest the same bytes. */
  lemma RepresentationsDigestAlike(nodes: seq<Node>, wire: Wire, position: nat, a: Mode, b: Mode)
    requires ValidSchema(nodes) && position <= |wire.data|
    requires ParseValue(nodes, 0, wire, position, a, false, true).Success?
    ensures ParseValue(nodes, 0, wire, position, b, false, true).Success?
    ensures Preimage(ParseValue(nodes, 0, wire, position, a, false, true).value)
         == Preimage(ParseValue(nodes, 0, wire, position, b, false, true).value)
  {
    RepresentationsAgree(nodes, 0, wire, position, a, b, false);
    EncodingIgnoresRepresentation(ParseValue(nodes, 0, wire, position, a, false, true).value,
                                  ParseValue(nodes, 0, wire, position, b, false, true).value, 0, MAX_NODES);
  }

  // ----- The reading accessors -----

  function FindChild(members: seq<Value>, name: seq<byte>): (r: Option<Value>)
    ensures r.Some? ==> r.value in members
  {
    if members == [] then None
    else if CText(members[0].name) == name then Some(members[0])
    else FindChild(members[1..], name)
  }

  /** `typetree_get_array`: the array itself, or the one reached through "Array" and "data" members. */
  function GetArray(v: Value): (r: Option<Data>)
    ensures r.Some? ==> IsArray(r.value)
    decreases v
  {
    if IsArray(v.data) then Some(v.data)
    else if !v.data.StructVal? then None
    else
      var marker := FindChild(v.data.members, Ascii("Array"));
      if marker.Some? && IsArray(marker.value.data) then Some(marker.value.data)
      else
        match FindChild(v.data.members, Ascii("data"))
        case None => None
        case Some(child) => GetArray(child)
  }

  function Count(d: Data): nat
    requires IsArray(d)
  {
    if d.PackedVal? then |d.bytes| else |d.elements|
  }

  function GetInt(v: Value): Option<int> {
    match v.data
    case SignedVal(n) => Some(n)
    case UnsignedVal(u) => if u > 0x7FFF_FFFF_FFFF_FFFF then None else Some(u)
    case _ => None
  }

  function GetUint(v: Value): Option<int> {
    match v.data
    case SignedVal(n) => if n < 0 then None else Some(n)
    case UnsignedVal(u) => Some(u)
    case _ => None
  }

  function ArrayGet(v: Value, index: int, read: Value -> Option<int>): Option<int> {
    match GetArray(v)
    case None => None
    case Some(d) =>
      if index < 0 || index >= Count(d) then None
      else if d.PackedVal? then Some(d.bytes[index] as int)
      else read(d.elements[index])
  }

  function ArrayGetInt(v: Value, index: int): Option<int> {
    ArrayGet(v, index, GetInt)
  }

  function ArrayGetUint(v: Value, index: int): Option<int> {
    ArrayGet(v, index, GetUint)
  }

  /** The elements from `from` up to `end` as bytes, if each is in byte range. */
  function CopyRange(d: Data, from: nat, end: nat): (r: Option<seq<byte>>)
    requires IsArray(d) && from <= end <= Count(d)
    decreases end - from
  {
    if from == end then Some([])
    else
      var b := if d.PackedVal? then Some(d.bytes[from] as int) else GetUint(d.elements[from]);
      var rest := CopyRange(d, from + 1, end);
      if b.None? || b.value < 0 || b.value > 255 || rest.None? then None else Some([b.value as byte] + rest.value)
  }

  function CopyBytes(v: Value, offset: nat, count: nat): Option<seq<byte>> {
    match GetArray(v)
    case None => None
    case Some(d) => if offset + count > Count(d) then None else CopyRange(d, offset, offset + count)
  }

  predicate SameOption(a: Option<Value>, b: Option<Value>) {
    a.Some? == b.Some? && (a.Some? ==> SameValue(a.value, b.value))
  }

  lemma {:induction false} FindsTheSameChild(xs: seq<Value>, ys: seq<Value>, name: seq<byte>)
    requires SameAll(xs, ys)
    ensures SameOption(FindChild(xs, name), FindChild(ys, name))
  {
    if xs != [] {
      FindsTheSameChild(xs[1..], ys[1..], name);
    }
  }

  predicate SameArray(a: Option<Data>, b: Option<Data>) {
    a.Some? == b.Some? && (a.Some? ==> IsArray(a.value) && IsArray(b.value) && SameData(a.value, b.value))
  }

  lemma SameDataSameShape(d: Data, e: Data)
    requires SameData(d, e)
    ensures IsArray(d) == IsArray(e) && d.StructVal? == e.StructVal?
  {
  }

  lemma {:induction false} FindsTheSameArray(v: Value, w: Value)
    requires SameValue(v, w)
    ensures SameArray(GetArray(v), GetArray(w))
    decreases v
  {
    SameDataSameShape(v.data, w.data);
    if v.data.StructVal? {
      var xs, ys := v.data.members, w.data.members;
      FindsTheSameChild(xs, ys, Ascii("Array"));
      FindsTheSameChild(xs, ys, Ascii("data"));
      var a, b := FindChild(xs, Ascii("Array")), FindChild(ys, Ascii("Array"));
      if a.Some? {
        SameDataSameShape(a.value.data, b.value.data);
      }
      var c, d := FindChild(xs, Ascii("data")), FindChild(ys, Ascii("data"));
      if c.Some? {
        FindsTheSameArray(c.value, d.value);
      }
    }
  }

  /** The three readings of element `i` that the accessors take. */
  function ReadAt(d: Data, i: nat, read: Value -> Option<int>): Option<int>
    requires IsArray(d) && i < Count(d)
  {
    if d.PackedVal? then Some(d.bytes[i] as int) else read(d.elements[i])
  }

  lemma ReadsAByte(d: Data, i: nat)
    requires IsArray(d) && ByteView(d).Some? && i < Count(d)
    ensures Count(d) == |ByteView(d).value|
    ensures ReadAt(d, i, GetInt) == Some(ByteView(d).value[i] as int)
    ensures ReadAt(d, i, GetUint) == Some(ByteView(d).value[i] as int)
  {
    if d.ArrayVal? {
      assert d.elements[i] in d.elements;
    }
  }

  lemma SameElementReadings(d: Data, e: Data, i: nat)
    requires IsArray(d) && IsArray(e) && SameData(d, e)
    ensures Count(d) == Count(e)
    ensures i < Count(d) ==>
      ReadAt(d, i, GetInt) == ReadAt(e, i, GetInt) && ReadAt(d, i, GetUint) == ReadAt(e, i, GetUint)
  {
    if ByteView(d).Some? {
      if i < Count(d) {
        ReadsAByte(d, i);
      }
      if i < Count(e) {
        ReadsAByte(e, i);
      }
    } else if i < Count(d) {
      SameAllAt(d.elements, e.elements, i);
      ScalarsOfSameData(d.elements[i], e.elements[i]);
    }
  }

  lemma ScalarsOfSameData(v: Value, w: Value)
    requires SameValue(v, w)
    ensures GetInt(v) == GetInt(w) && GetUint(v) == GetUint(w)
  {
  }

  lemma {:induction false} CopiesTheSameBytes(d: Data, e: Data, from: nat, end: nat)
    requires IsArray(d) && IsArray(e) && SameData(d, e) && from <= end <= Count(d) && end <= Count(e)
    ensures CopyRange(d, from, end) == CopyRange(e, from, end)
    decreases end - from
  {
    if from < end {
      SameElementReadings(d, e, from);
      CopiesTheSameBytes(d, e, from + 1, end);
    }
  }

  /** Scalars, array elements and copied byte ranges read the same from two representations of one value. */
  lemma AccessorsIgnoreRepresentation(v: Value, w: Value, index: int, offset: nat, count: nat)
    requires SameValue(v, w)
    ensures ArrayGetInt(v, index) == ArrayGetInt(w, index)
    ensures ArrayGetUint(v, index) == ArrayGetUint(w, index)
    ensures CopyBytes(v, offset, count) == CopyBytes(w, offset, count)
    ensures GetInt(v) == GetInt(w) && GetUint(v) == GetUint(w)
  {
    FindsTheSameArray(v, w);
    ScalarsOfSameData(v, w);
    if GetArray(v).Some? {
      var d, e := GetArray(v).value, GetArray(w).value;
      SameElementReadings(d, e, if index < 0 then 0 else index);
      if offset + count <= Count(d) {
        CopiesTheSameBytes(d, e, offset, offset + count);
      }
    }
  }
}
